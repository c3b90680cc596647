/** Reading a directory slot by slot: what the iterator yields from a run of slots,
    and why writing one more entry into free slots adds exactly that entry. */
module Fat32Scan {
  import opened Bytes
  import opened Fat32Names

  predicate AllFit(slots: seq<Slot>)
  {
    forall i :: 0 <= i < |slots| ==> FitsBuffer(slots[i])
  }

  /** The entries found in `slots`, each with the index of its 8.3 slot, counted from `idx`. */
  function Scan(slots: seq<Slot>, st: ScanState, idx: nat): seq<(nat, Entry)>
    requires |st.buf| == LFN_BUFFER && AllFit(slots)
  {
    if slots == [] then [] else
      var (st', e) := ParseSlot(slots[0], st);
      (if e.Some? then [(idx, e.value)] else []) + Scan(slots[1..], st', idx + 1)
  }

  function ScanEnd(slots: seq<Slot>, st: ScanState): (r: ScanState)
    requires |st.buf| == LFN_BUFFER && AllFit(slots)
    ensures |r.buf| == LFN_BUFFER
  {
    if slots == [] then st else ScanEnd(slots[1..], ParseSlot(slots[0], st).0)
  }

  lemma {:induction false} ScanAppend(a: seq<Slot>, b: seq<Slot>, st: ScanState, idx: nat)
    requires |st.buf| == LFN_BUFFER && AllFit(a) && AllFit(b)
    ensures AllFit(a + b)
    ensures Scan(a + b, st, idx) == Scan(a, st, idx) + Scan(b, ScanEnd(a, st), idx + |a|)
    ensures ScanEnd(a + b, st) == ScanEnd(b, ScanEnd(a, st))
  {
    hide ParseSlot, FitsBuffer;
    if a == [] {
      assert a + b == b;
    } else {
      assert (a + b)[1..] == a[1..] + b;
      ScanAppend(a[1..], b, ParseSlot(a[0], st).0, idx + 1);
    }
  }

  // ----- long-name runs -----

  ghost predicate Ascending(run: seq<Slot>)
  {
    forall i :: 0 <= i < |run| ==> Sequence(run[i]) == i + 1
  }

  ghost predicate Descending(run: seq<Slot>)
  {
    forall i :: 0 <= i < |run| ==> Sequence(run[i]) == |run| - i
  }

  /** A complete run of long-name slots, in this driver's order or in the standard's. */
  ghost predicate GoodRun(run: seq<Slot>)
  {
    && run != []
    && (forall i :: 0 <= i < |run| ==> IsLong(run[i]) && FitsBuffer(run[i]) && run[i][0] != DELETED)
    && (Ascending(run) || Descending(run))
  }

  predicate AnyLast(run: seq<Slot>)
  {
    exists i :: 0 <= i < |run| && IsLast(run[i])
  }

  lemma {:induction false} RunIsSilent(run: seq<Slot>, st: ScanState, idx: nat)
    requires |st.buf| == LFN_BUFFER && AllFit(run) && forall i :: 0 <= i < |run| ==> IsLong(run[i])
    ensures Scan(run, st, idx) == []
    ensures ScanEnd(run, st).lfn == (st.lfn || AnyLast(run))
  {
    if run != [] {
      RunIsSilent(run[1..], ParseSlot(run[0], st).0, idx + 1);
      assert forall i :: 1 <= i < |run| ==> run[i] == run[1..][i - 1];
      assert AnyLast(run) <==> IsLast(run[0]) || AnyLast(run[1..]) by {
        if AnyLast(run[1..]) {
          var i :| 0 <= i < |run| - 1 && IsLast(run[1..][i]);
          assert IsLast(run[i + 1]);
        }
      }
    }
  }

  lemma ScanOne(s: Slot, st: ScanState, idx: nat)
    requires |st.buf| == LFN_BUFFER && FitsBuffer(s)
    ensures ScanEnd([s], st) == ParseSlot(s, st).0
    ensures Scan([s], st, idx) == var e := ParseSlot(s, st).1; if e.Some? then [(idx, e.value)] else []
  {
    hide ParseSlot;
    assert [s][1..] == [];
  }

  lemma ScanLast(run: seq<Slot>, st: ScanState)
    requires |st.buf| == LFN_BUFFER && AllFit(run) && run != []
    ensures AllFit(run[..|run| - 1])
    ensures ScanEnd(run, st) == ParseSlot(run[|run| - 1], ScanEnd(run[..|run| - 1], st)).0
  {
    hide ParseSlot, ScanEnd, Scan;
    var k := |run| - 1;
    assert run == run[..k] + [run[k]];
    ScanAppend(run[..k], [run[k]], st, 0);
    ScanOne(run[k], ScanEnd(run[..k], st), 0);
  }

  lemma StoredChunk(buf: seq<byte>, s: Slot)
    requires |buf| == LFN_BUFFER && 1 <= Sequence(s) <= 19
    ensures var p := 13 * (Sequence(s) - 1); var r := StoreChunk(buf, s);
      && p + 13 < |r| && r[p + 13] == 0 && r[..p] == buf[..p] && r[p..p + 13] == Chunk(s)
  {
    hide Chunk;
  }

  /** Characters `13 * |run|` of the buffer after an ascending run come from the run. */
  ghost predicate Filled(b: seq<byte>, run: seq<Slot>)
  {
    && 13 * |run| < |b| && b[13 * |run|] == 0
    && forall x :: 0 <= x < 13 * |run| ==> b[x] == Chunk(run[x / 13])[x % 13]
  }

  lemma {:induction false} AscendingFills(run: seq<Slot>, st: ScanState)
    requires |st.buf| == LFN_BUFFER && AllFit(run) && run != []
    requires Ascending(run) && forall i :: 0 <= i < |run| ==> IsLong(run[i])
    ensures Filled(ScanEnd(run, st).buf, run)
    decreases |run|
  {
    hide Chunk, ScanEnd, StoreChunk;
    var k := |run| - 1;
    ScanLast(run, st);
    var before := ScanEnd(run[..k], st).buf;
    if k > 0 { AscendingFills(run[..k], st); }
    StoredChunk(before, run[k]);
    var b := ScanEnd(run, st).buf;
    forall x | 0 <= x < 13 * |run|
      ensures b[x] == Chunk(run[x / 13])[x % 13]
    {
      if x < 13 * k {
        assert b[x] == b[..13 * k][x] == before[..13 * k][x] == before[x];
        assert run[..k][x / 13] == run[x / 13];
      } else {
        assert b[x] == b[13 * k..13 * k + 13][x - 13 * k];
      }
    }
  }

  lemma DescendingFills(run: seq<Slot>, st: ScanState)
    requires |st.buf| == LFN_BUFFER && AllFit(run) && run != []
    requires Descending(run) && IsLong(run[|run| - 1])
    ensures var b := ScanEnd(run, st).buf;
      b[..13] == Chunk(run[|run| - 1]) && b[13] == 0
  {
    hide Chunk, ScanEnd, StoreChunk;
    ScanLast(run, st);
    StoredChunk(ScanEnd(run[..|run| - 1], st).buf, run[|run| - 1]);
  }

  lemma CStrAgree(a: seq<byte>, b: seq<byte>, n: nat)
    requires n < |a| == |b| && a[..n] == b[..n] && a[n] == b[n] == 0
    ensures CStr(a) == CStr(b)
  {
    var c := CStr(a);
    assert |c| <= n;
    assert c == a[..|c|] == a[..n][..|c|] == b[..n][..|c|] == b[..|c|];
    assert |c| < n ==> b[|c|] == b[..n][|c|] == a[..n][|c|] == a[|c|];
    CStrIs(b, c);
  }

  /** A complete run spells the same name whatever the buffer held before it. */
  lemma RunIgnoresStale(run: seq<Slot>, a: ScanState, b: ScanState)
    requires |a.buf| == |b.buf| == LFN_BUFFER && AllFit(run) && GoodRun(run)
    ensures CStr(ScanEnd(run, a).buf) == CStr(ScanEnd(run, b).buf)
  {
    hide Chunk, ScanEnd, CStr;
    var p, q := ScanEnd(run, a).buf, ScanEnd(run, b).buf;
    if Ascending(run) {
      AscendingFills(run, a);
      AscendingFills(run, b);
      var n := 13 * |run|;
      assert forall x :: 0 <= x < n ==> p[x] == Chunk(run[x / 13])[x % 13] == q[x];
      CStrAgree(p, q, n);
    } else {
      DescendingFills(run, a);
      DescendingFills(run, b);
      CStrAgree(p, q, 13);
    }
  }

  // ----- round trip of a long name -----

  /** Slots for a name of `len` bytes, when long-name slots are written at all. */
  function LongSlotCount(len: nat): nat { (len + 12) / 13 }

  /** Encoding then decoding: the written slots, in disk order, leave exactly the name,
      whatever stale bytes the buffer held. */
  lemma LongNameRoundTrip(name: seq<byte>, checksum: byte, st: ScanState, idx: nat)
    requires NulFree(name) && 1 <= |name| <= 247 && |st.buf| == LFN_BUFFER
    ensures var n := LongSlotCount(|name|); var run := LongSlots(name, n, checksum);
      && AllFit(run) && GoodRun(run) && AnyLast(run)
      && Scan(run, st, idx) == [] && ScanEnd(run, st).lfn
      && CStr(ScanEnd(run, st).buf) == name
  {
    var n := LongSlotCount(|name|);
    var run := LongSlots(name, n, checksum);
    forall i | 0 <= i < n
      ensures IsLong(run[i]) && Sequence(run[i]) == i + 1 && run[i][0] != DELETED && (IsLast(run[i]) <==> i == n - 1)
    {
      ChunkOfLongSlot(name, i, n, checksum, 0);
    }
    assert IsLast(run[n - 1]);
    RunIsSilent(run, st, idx);
    AscendingFills(run, st);
    LongSlotsSpell(name, checksum, ScanEnd(run, st).buf);
  }

  lemma LongSlotsSpell(name: seq<byte>, checksum: byte, b: seq<byte>)
    requires NulFree(name) && 1 <= |name| <= 247
    requires Filled(b, LongSlots(name, LongSlotCount(|name|), checksum))
    ensures CStr(b) == name
  {
    hide Chunk, LongSlot, CStr;
    var n := LongSlotCount(|name|);
    var run := LongSlots(name, n, checksum);
    forall x | 0 <= x < 13 * n
      ensures b[x] == UnitLow(name, x)
    {
      ChunkOfLongSlot(name, x / 13, n, checksum, x % 13);
    }
    assert name == b[..|name|];
    CStrIs(b, name);
  }

  /** The slots of a long name in the standard's order, last part first. */
  function StandardSlots(name: seq<byte>, n: nat, checksum: byte): (ss: seq<Slot>)
    requires n <= 20
    ensures |ss| == n
  {
    seq(n, i requires 0 <= i < n => LongSlot(name, n - 1 - i, n, checksum))
  }

  /** The same slots in the standard's descending order decode to the first 13 characters. */
  lemma DescendingOrderTruncates(name: seq<byte>, checksum: byte, st: ScanState)
    requires NulFree(name) && 1 <= |name| <= 247 && |st.buf| == LFN_BUFFER
    ensures var run := StandardSlots(name, LongSlotCount(|name|), checksum);
      && AllFit(run) && GoodRun(run)
      && CStr(ScanEnd(run, st).buf) == name[..Min(13, |name|)]
      && (CStr(ScanEnd(run, st).buf) == name <==> |name| <= 13)
  {
    hide Chunk, LongSlot, CStr, ScanEnd;
    var n := LongSlotCount(|name|);
    var run := StandardSlots(name, n, checksum);
    forall i | 0 <= i < n
      ensures IsLong(run[i]) && Sequence(run[i]) == n - i && run[i][0] != DELETED
    {
      ChunkOfLongSlot(name, n - 1 - i, n, checksum, 0);
    }
    DescendingFills(run, st);
    var b := ScanEnd(run, st).buf;
    forall x | 0 <= x < 13
      ensures b[x] == UnitLow(name, x)
    {
      ChunkOfLongSlot(name, 0, n, checksum, x);
      assert b[x] == b[..13][x];
    }
    var m := Min(13, |name|);
    assert name[..m] == b[..m];
    CStrIs(b, name[..m]);
  }

  // ----- well-formed directories -----

  function RunLength(slots: seq<Slot>): (k: nat)
    ensures k <= |slots|
    ensures forall i :: 0 <= i < k ==> IsLong(slots[i])
    ensures k < |slots| ==> !IsLong(slots[k])
  {
    if slots == [] || !IsLong(slots[0]) then 0 else 1 + RunLength(slots[1..])
  }

  /** Every long-name run is complete and ends in a live 8.3 slot. */
  ghost predicate CleanDir(slots: seq<Slot>)
    decreases |slots|
  {
    if slots == [] then true
    else if !IsLong(slots[0]) then CleanDir(slots[1..])
    else
      var k := RunLength(slots);
      k < |slots| && IsLive(slots[k]) && GoodRun(slots[..k]) && CleanDir(slots[k + 1..])
  }

  lemma {:induction false} CleanFits(slots: seq<Slot>)
    requires CleanDir(slots)
    ensures AllFit(slots)
    decreases |slots|
  {
    if slots != [] {
      var k := RunLength(slots);
      CleanFits(slots[k + 1..]);
      forall i | 0 <= i < |slots|
        ensures FitsBuffer(slots[i])
      {
        if i < k { assert slots[i] == slots[..k][i]; }
        if i > k { assert slots[i] == slots[k + 1..][i - k - 1]; }
      }
    }
  }

  lemma {:induction false} RunLengthIs(run: seq<Slot>, rest: seq<Slot>)
    requires forall i :: 0 <= i < |run| ==> IsLong(run[i])
    requires rest != [] && !IsLong(rest[0])
    ensures RunLength(run + rest) == |run|
  {
    if run == [] {
      assert run + rest == rest;
    } else {
      assert (run + rest)[1..] == run[1..] + rest;
      RunLengthIs(run[1..], rest);
    }
  }

  lemma {:induction false} CleanAppend(a: seq<Slot>, b: seq<Slot>)
    requires CleanDir(a) && CleanDir(b)
    ensures CleanDir(a + b)
    decreases |a|
  {
    if a == [] {
      assert a + b == b;
    } else {
      hide GoodRun, IsLive;
      var k := RunLength(a);
      CleanAppend(a[k + 1..], b);
      assert a + b == a[..k] + ([a[k]] + (a[k + 1..] + b));
      RunLengthIs(a[..k], [a[k]] + (a[k + 1..] + b));
      assert (a + b)[k + 1..] == a[k + 1..] + b;
      assert (a + b)[..k] == a[..k] && (a + b)[k] == a[k];
    }
  }

  /** No run straddles a free slot. */
  lemma {:induction false} CleanSplit(slots: seq<Slot>, n: nat)
    requires CleanDir(slots) && n <= |slots|
    requires n < |slots| ==> IsFree(slots[n]) && !IsLong(slots[n])
    ensures CleanDir(slots[..n]) && CleanDir(slots[n..])
    decreases |slots|
  {
    if n == 0 {
      assert slots[..0] == [] && slots[0..] == slots;
    } else if n == |slots| {
      assert slots[..n] == slots && slots[n..] == [];
    } else {
      var k := RunLength(slots);
      if n > k {
        CleanSplit(slots[k + 1..], n - k - 1);
        CleanSplitAfterRun(slots, n);
      }
    }
  }

  lemma CleanBuild(run: seq<Slot>, s: Slot, rest: seq<Slot>)
    requires !IsLong(s) && CleanDir(rest)
    requires run != [] ==> GoodRun(run) && IsLive(s)
    ensures CleanDir(run + [s] + rest)
  {
    assert forall i :: 0 <= i < |run| ==> IsLong(run[i]);
    hide GoodRun, IsLive;
    var all := run + [s] + rest;
    assert all == run + ([s] + rest);
    RunLengthIs(run, [s] + rest);
    assert all[..|run|] == run && all[|run| + 1..] == rest;
  }

  lemma CleanSplitAfterRun(slots: seq<Slot>, n: nat)
    requires slots != [] && CleanDir(slots) && RunLength(slots) < n <= |slots|
    requires CleanDir(slots[RunLength(slots) + 1..][..n - RunLength(slots) - 1])
    requires CleanDir(slots[RunLength(slots) + 1..][n - RunLength(slots) - 1..])
    ensures CleanDir(slots[..n]) && CleanDir(slots[n..])
  {
    var k := RunLength(slots);
    assert k > 0 ==> GoodRun(slots[..k]) && IsLive(slots[k]);
    hide *;
    var t := slots[k + 1..];
    CleanBuild(slots[..k], slots[k], t[..n - k - 1]);
    CutBehind(slots, k, n);
  }

  lemma CutBehind(slots: seq<Slot>, k: nat, n: nat)
    requires k < n <= |slots|
    ensures slots[..n] == slots[..k] + [slots[k]] + slots[k + 1..][..n - k - 1]
    ensures slots[n..] == slots[k + 1..][n - k - 1..]
  {
  }

  /** In a well-formed directory stale buffer bytes never show, and no run stays open. */
  lemma {:induction false} ScanIgnoresStale(slots: seq<Slot>, a: ScanState, b: ScanState, idx: nat)
    requires CleanDir(slots) && AllFit(slots) && |a.buf| == |b.buf| == LFN_BUFFER && !a.lfn && !b.lfn
    ensures Scan(slots, a, idx) == Scan(slots, b, idx)
    ensures !ScanEnd(slots, a).lfn
    decreases |slots|
  {
    if slots == [] {
    } else if !IsLong(slots[0]) {
      ScanIgnoresStale(slots[1..], ParseSlot(slots[0], a).0, ParseSlot(slots[0], b).0, idx + 1);
    } else {
      hide *;
      RunFirst(slots);
      var k := RunLength(slots);
      var a1, b1 := ScanState(ScanEnd(slots[..k], a).buf, false), ScanState(ScanEnd(slots[..k], b).buf, false);
      ScanIgnoresStale(slots[k + 1..], a1, b1, idx + k + 1);
      RunScan(slots[..k], slots[k], slots[k + 1..], a, b, idx);
    }
  }

  /** The first run of a clean directory, and what follows it. */
  lemma RunFirst(slots: seq<Slot>)
    requires CleanDir(slots) && AllFit(slots) && slots != [] && IsLong(slots[0])
    ensures var k := RunLength(slots);
      && 0 < k < |slots| && GoodRun(slots[..k]) && IsLive(slots[k]) && CleanDir(slots[k + 1..])
      && AllFit(slots[..k]) && AllFit(slots[k + 1..]) && slots == slots[..k] + [slots[k]] + slots[k + 1..]
  {
    CutOne(slots, RunLength(slots));
    FitParts(slots, RunLength(slots));
    hide GoodRun, IsLive, FitsBuffer, AllFit;
  }

  lemma CutOne<T>(s: seq<T>, k: nat)
    ensures k < |s| ==> s == s[..k] + [s[k]] + s[k + 1..]
  {
  }

  lemma FitParts(slots: seq<Slot>, k: nat)
    requires AllFit(slots)
    ensures k < |slots| ==> AllFit(slots[..k]) && AllFit(slots[k + 1..])
  {
  }

  lemma RunScan(run: seq<Slot>, live: Slot, rest: seq<Slot>, a: ScanState, b: ScanState, idx: nat)
    requires |a.buf| == |b.buf| == LFN_BUFFER && AllFit(run) && AllFit(rest)
    requires GoodRun(run) && IsLive(live) && a.lfn == b.lfn
    ensures AllFit(run + [live] + rest)
    ensures var a1, b1 := ScanState(ScanEnd(run, a).buf, false), ScanState(ScanEnd(run, b).buf, false);
      && (Scan(rest, a1, idx + |run| + 1) == Scan(rest, b1, idx + |run| + 1) ==>
            Scan(run + [live] + rest, a, idx) == Scan(run + [live] + rest, b, idx))
      && ScanEnd(run + [live] + rest, a) == ScanEnd(rest, a1)
  {
    hide Scan, ScanEnd;
    RunThenLive(run, live, rest, a, idx);
    RunThenLive(run, live, rest, b, idx);
    RunEntryIgnoresStale(run, live, a, b);
  }

  lemma RunEntryIgnoresStale(run: seq<Slot>, live: Slot, a: ScanState, b: ScanState)
    requires |a.buf| == |b.buf| == LFN_BUFFER && AllFit(run) && GoodRun(run) && a.lfn == b.lfn
    ensures RunEntry(run, live, a) == RunEntry(run, live, b)
  {
    RunIgnoresStale(run, a, b);
    RunIsSilent(run, a, 0);
    RunIsSilent(run, b, 0);
  }

  /** What a long-name run and the live slot behind it yield. */
  function RunEntry(run: seq<Slot>, live: Slot, st: ScanState): Entry
    requires |st.buf| == LFN_BUFFER && AllFit(run)
  {
    Entry(if ScanEnd(run, st).lfn then CStr(ScanEnd(run, st).buf) else ShortName(live),
          SlotCluster(live), live[11], SlotSize(live))
  }

  lemma RunThenLive(run: seq<Slot>, live: Slot, rest: seq<Slot>, st: ScanState, idx: nat)
    requires |st.buf| == LFN_BUFFER && AllFit(run) && AllFit(rest) && IsLive(live)
    requires forall i :: 0 <= i < |run| ==> IsLong(run[i])
    ensures AllFit(run + [live] + rest)
    ensures var st' := ScanState(ScanEnd(run, st).buf, false); var k := |run|;
      && ScanEnd(run, st).lfn == (st.lfn || AnyLast(run))
      && Scan(run + [live] + rest, st, idx) == [(idx + k, RunEntry(run, live, st))] + Scan(rest, st', idx + k + 1)
      && ScanEnd(run + [live] + rest, st) == ScanEnd(rest, st')
  {
    hide Scan, ScanEnd, ShortName, StoreChunk, CStr;
    RunIsSilent(run, st, idx);
    ScanOne(live, ScanEnd(run, st), idx + |run|);
    ScanAppend(run, [live], st, idx);
    ScanAppend(run + [live], rest, st, idx);
  }
}
