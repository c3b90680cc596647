/** What deleting an entry does to its directory: the 8.3 slot is marked deleted in
    place, and nothing else is. */
module Fat32Delete {
  import opened Bytes
  import opened Fat32Names
  import opened Fat32Scan
  import opened Fat32Entries
  import opened Fat32Write
  import opened Fat32AddEntry

  /** With its first character replaced by the deletion mark, a name gets an alias that
      starts with the mark: it can only be a numbered one. */
  lemma DeletedAlias(slots: seq<Slot>, name: seq<byte>)
    requires name != [] && name[0] == DELETED && |Base(name)| <= 11 && AliasFor(slots, name).Some?
    ensures AliasFor(slots, name).value[0] == DELETED
  {
    assert Base(name) != [] && Base(name)[0] == DELETED;
    assert !FitsAlias(name) by { assert !IsUpper(Base(name)[0]) && !IsAliasSymbol(Base(name)[0]); }
    NumberedKeepsMark(slots, name, 1);
  }

  lemma {:induction false} NumberedKeepsMark(slots: seq<Slot>, name: seq<byte>, n: nat)
    requires |Base(name)| <= 11 && Base(name) != [] && Base(name)[0] == DELETED && 1 <= n <= 1_000_000
    ensures var a := FirstNumbered(slots, name, n); a.Some? ==> a.value[0] == DELETED
    decreases 1_000_000 - n
  {
    if n < 1_000_000 {
      if Taken(slots, NumberedAlias(name, n)) {
        NumberedKeepsMark(slots, name, n + 1);
      } else {
        DigitsFit(n);
        assert NumberedAlias(name, n)[0] == Upper(Base(name)[0]);
      }
    }
  }

  lemma DeletedSlot(slots: seq<Slot>, im: Image, idx: nat)
    requires im.name != [] && im.name[0] == DELETED && |Base(im.name)| <= 11 && im.attr != LONG_NAME && idx < |slots|
    requires Written(slots, im, true, idx).Some?
    ensures var slots' := Written(slots, im, true, idx).value;
      && slots' == slots[idx := slots'[idx]] && IsFree(slots'[idx]) && !IsLong(slots'[idx])
      && slots'[idx][0] == 0xE5 && slots'[idx][11..] == EntrySlot(slots[idx], slots[idx][..11], im.attr, im.cluster,
          im.size)[11..]
  {
    hide *;
    WrittenIs(slots, im, true, idx);
    DeletedAlias(slots, im.name);
    var a := AliasFor(slots, im.name).value;
    var s := EntrySlot(slots[idx], a, im.attr, im.cluster, im.size);
    DeletedMark(slots[idx], a, im);
    DeletedSlots(im, a, slots[idx]);
    SpliceOne(slots, idx, s);
  }

  lemma DeletedMark(slot: Slot, a: seq<byte>, im: Image)
    requires |a| == 11 && a[0] == DELETED && im.attr != LONG_NAME
    ensures var s := EntrySlot(slot, a, im.attr, im.cluster, im.size);
      && IsFree(s) && !IsLong(s) && s[0] == 0xE5
      && s[11..] == EntrySlot(slot, slot[..11], im.attr, im.cluster, im.size)[11..]
  {
    var s := EntrySlot(slot, a, im.attr, im.cluster, im.size);
    EntrySlotFields(slot, a, im.attr, im.cluster, im.size);
    assert s[11..] == EntrySlot(slot, slot[..11], im.attr, im.cluster, im.size)[11..];
    hide EntrySlot;
    assert s[0] == s[..11][0];
  }

  lemma DeletedSlots(im: Image, a: seq<byte>, slot: Slot)
    requires im.name != [] && im.name[0] == DELETED && |a| == 11
    ensures EntrySlots(im, true, a, slot) == [EntrySlot(slot, a, im.attr, im.cluster, im.size)]
  {
    hide EntrySlot, ChecksumFrom;
    assert LongSlots(im.name, 0, ChecksumFrom(a, 0, 0)) == [];
  }

  lemma SpliceOne<T>(slots: seq<T>, idx: nat, s: T)
    requires idx < |slots|
    ensures Splice(slots, idx, [s]) == slots[idx := s]
  {
  }

  /** The entry an 8.3 slot stands for when no long-name slots precede it. */
  function ShortEntry(s: Slot): Entry {
    Entry(ShortName(s), SlotCluster(s), s[11], SlotSize(s))
  }

  /** Deleting an entry that has no long-name slots removes exactly that entry. */
  lemma DeleteShortEntry(slots: seq<Slot>, im: Image, idx: nat, st: ScanState)
    requires im.name != [] && im.name[0] == DELETED && |Base(im.name)| <= 11 && im.attr != LONG_NAME && idx < |slots|
    requires Written(slots, im, true, idx).Some?
    requires CleanDir(slots) && CleanDir(slots[..idx]) && IsLive(slots[idx]) && |st.buf| == LFN_BUFFER && !st.lfn
    ensures var slots' := Written(slots, im, true, idx).value;
      && CleanDir(slots') && AllFit(slots) && AllFit(slots')
      && OneMore(Scan(slots', st, 0), Scan(slots, st, 0), (idx, ShortEntry(slots[idx])))
  {
    hide *;
    DeletedSlot(slots, im, idx);
    var d := Written(slots, im, true, idx).value[idx];
    CutAt(slots, idx, d);
    AfterCleanPrefix(slots[..idx], [slots[idx]] + slots[idx + 1..], slots);
    LiveThenClean(slots[idx], slots[idx + 1..]);
    RemoveScan(slots[..idx], slots[idx], slots[idx + 1..], d, st);
  }

  lemma CutAt(slots: seq<Slot>, i: nat, d: Slot)
    requires i < |slots|
    ensures slots == slots[..i] + ([slots[i]] + slots[i + 1..]) == slots[..i] + [slots[i]] + slots[i + 1..]
    ensures slots[i := d] == slots[..i] + [d] + slots[i + 1..]
  {
  }

  /** A clean directory behind a clean prefix is clean. */
  lemma {:induction false} AfterCleanPrefix(pre: seq<Slot>, rest: seq<Slot>, all: seq<Slot>)
    requires CleanDir(pre) && CleanDir(all) && all == pre + rest
    ensures CleanDir(rest)
    decreases |pre|
  {
    hide *;
    if pre == [] {
      assert all == rest;
    } else {
      var k := FirstRun(pre, rest, all);
      AfterCleanPrefix(pre[k + 1..], rest, all[k + 1..]);
    }
  }

  /** The first run of a clean directory, and what follows it. */
  lemma FirstRun(pre: seq<Slot>, rest: seq<Slot>, all: seq<Slot>) returns (k: nat)
    requires CleanDir(pre) && CleanDir(all) && all == pre + rest && pre != []
    ensures k < |pre| <= |all| && all[k + 1..] == pre[k + 1..] + rest && CleanDir(pre[k + 1..])
    ensures CleanDir(all[k + 1..])
  {
    hide GoodRun, IsLive;
    k := RunLength(pre);
    assert pre == pre[..k] + ([pre[k]] + pre[k + 1..]);
    assert all == pre[..k] + ([pre[k]] + (pre[k + 1..] + rest));
    RunLengthIs(pre[..k], [pre[k]] + (pre[k + 1..] + rest));
    assert all[k + 1..] == pre[k + 1..] + rest;
  }

  lemma LiveThenClean(s: Slot, post: seq<Slot>)
    requires CleanDir([s] + post) && IsLive(s)
    ensures CleanDir(post)
  {
    assert ([s] + post)[1..] == post;
  }

  lemma RemoveScan(pre: seq<Slot>, s: Slot, post: seq<Slot>, d: Slot, st: ScanState)
    requires CleanDir(pre) && CleanDir(post) && IsLive(s) && IsFree(d) && !IsLong(d) && |st.buf| == LFN_BUFFER
    requires !st.lfn
    ensures CleanDir(pre + [d] + post) && AllFit(pre + [s] + post) && AllFit(pre + [d] + post)
    ensures OneMore(Scan(pre + [d] + post, st, 0), Scan(pre + [s] + post, st, 0), (|pre|, ShortEntry(s)))
  {
    hide *;
    CleanFits(pre);
    CleanFits(post);
    var s1 := ScanEnd(pre, st);
    ScanIgnoresStale(pre, st, st, 0);
    LiveScan(s, s1, |pre|);
    FreeScan(d, s1, |pre|);
    FreeThenClean(d);
    CleanAppend(pre, [d]);
    CleanAppend(pre + [d], post);
    ScanThree(pre, [s], post, st);
    ScanThree(pre, [d], post, st);
    JoinsOneMore(Scan(pre, st, 0), (|pre|, ShortEntry(s)), Scan(post, s1, |pre| + 1));
  }

  lemma JoinsOneMore(a: seq<(nat, Entry)>, e: (nat, Entry), b: seq<(nat, Entry)>)
    ensures OneMore(a + [] + b, a + [e] + b, e)
  {
    OneMoreIs(a + [] + b, |a|, e, a + [e] + b);
  }

  lemma LiveScan(s: Slot, st: ScanState, idx: nat)
    requires IsLive(s) && |st.buf| == LFN_BUFFER && !st.lfn
    ensures AllFit([s]) && Scan([s], st, idx) == [(idx, ShortEntry(s))] && ScanEnd([s], st) == st
  {
    ScanOne(s, st, idx);
  }

  lemma FreeScan(d: Slot, st: ScanState, idx: nat)
    requires IsFree(d) && !IsLong(d) && |st.buf| == LFN_BUFFER
    ensures AllFit([d]) && Scan([d], st, idx) == [] && ScanEnd([d], st) == st
  {
    ScanOne(d, st, idx);
  }

  lemma FreeThenClean(d: Slot)
    requires !IsLong(d)
    ensures CleanDir([d])
  {
    assert [d][1..] == [];
  }

  // ----- entries with long-name slots -----

  const FRESH := ScanState(Zeros(LFN_BUFFER), false)

  /** The slots from the first one on that is not free. */
  function Behind(slots: seq<Slot>): (r: seq<Slot>)
    ensures r != [] ==> !IsFree(r[0])
  {
    if slots != [] && IsFree(slots[0]) then Behind(slots[1..]) else slots
  }

  /** The name a run of long-name slots spells. */
  function RunName(run: seq<Slot>): seq<byte>
    requires AllFit(run)
  {
    CStr(ScanEnd(run, FRESH).buf)
  }

  /** The name of the first entry in `slots` when a run with a last-slot flag is left open in front of them that
      spells `name`: the entry's own run overwrites it; without one, the entry takes it over. */
  function NameTaken(slots: seq<Slot>, name: seq<byte>): seq<byte>
    requires AllFit(Behind(slots))
  {
    var rest := Behind(slots);
    var k := RunLength(rest);
    if k == 0 then name else RunName(rest[..k])
  }

  /** The open run does not show: there is no entry behind it, or the first one takes over its own name. */
  predicate NextKeepsName(slots: seq<Slot>, name: seq<byte>)
    requires AllFit(Behind(slots))
  {
    var rest := Behind(slots);
    var k := RunLength(rest);
    rest == [] || k == |rest|
    || (if k == 0 then ShortName(rest[0]) == name else AnyLast(rest[..k]) || ShortName(rest[k]) == RunName(rest[..k]))
  }

  function Renamed(listing: seq<(nat, Entry)>, name: seq<byte>): seq<(nat, Entry)> {
    if listing == [] then [] else [(listing[0].0, listing[0].1.(name := name))] + listing[1..]
  }

  lemma {:induction false} BehindFits(slots: seq<Slot>)
    requires AllFit(slots)
    ensures AllFit(Behind(slots))
  {
    if slots != [] && IsFree(slots[0]) { BehindFits(slots[1..]); }
  }

  /** Scanning a clean directory behind an open run changes the name of the first entry only. */
  lemma {:induction false} OpenRunScan(slots: seq<Slot>, buf: seq<byte>, idx: nat)
    requires CleanDir(slots) && AllFit(slots) && AllFit(Behind(slots)) && |buf| == LFN_BUFFER
    ensures var own, now := Scan(slots, ScanState(buf, false), idx), Scan(slots, ScanState(buf, true), idx);
      && now == Renamed(own, NameTaken(slots, CStr(buf)))
      && (now == own <==> NextKeepsName(slots, CStr(buf)))
    decreases |slots|
  {
    var a, b := ScanState(buf, false), ScanState(buf, true);
    if slots == [] {
    } else if IsLong(slots[0]) {
      LongRunScan(slots, a, b, idx);
    } else if IsFree(slots[0]) {
      hide StoreChunk, ShortName, CStr, NameTaken, NextKeepsName;
      SameBehind(slots, CStr(buf));
      OpenRunScan(slots[1..], buf, idx + 1);
    } else {
      assert RunLength(slots) == 0;
    }
  }

  lemma SameBehind(slots: seq<Slot>, name: seq<byte>)
    requires slots != [] && IsFree(slots[0]) && AllFit(Behind(slots))
    ensures Behind(slots) == Behind(slots[1..])
    ensures NameTaken(slots, name) == NameTaken(slots[1..], name)
    ensures NextKeepsName(slots, name) <==> NextKeepsName(slots[1..], name)
  {
  }

  lemma LongRunScan(slots: seq<Slot>, a: ScanState, b: ScanState, idx: nat)
    requires CleanDir(slots) && AllFit(slots) && slots != [] && IsLong(slots[0]) && AllFit(Behind(slots))
    requires |a.buf| == LFN_BUFFER && !a.lfn && b == ScanState(a.buf, true)
    ensures Scan(slots, b, idx) == Renamed(Scan(slots, a, idx), NameTaken(slots, CStr(a.buf)))
    ensures Scan(slots, b, idx) == Scan(slots, a, idx) <==> NextKeepsName(slots, CStr(a.buf))
  {
    hide *;
    RunFirst(slots);
    LongStays(slots);
    var k := RunLength(slots);
    GoodRunIsLong(slots[..k]);
    LongRun(slots[..k], slots[k], slots[k + 1..], a, b, idx);
    NamesOfRun(slots, a, b);
    var rest := Scan(slots[k + 1..], ScanState(ScanEnd(slots[..k], a).buf, false), idx + k + 1);
    RenamedFirst(idx + k, RunEntry(slots[..k], slots[k], a), RunEntry(slots[..k], slots[k], b), rest);
  }

  /** The two scans of a run and what follows it differ in the entry of the run only. */
  lemma LongRun(run: seq<Slot>, live: Slot, rest: seq<Slot>, a: ScanState, b: ScanState, idx: nat)
    requires GoodRun(run) && IsLive(live) && CleanDir(rest) && AllFit(run) && AllFit(rest)
    requires (forall i :: 0 <= i < |run| ==> IsLong(run[i])) && |a.buf| == LFN_BUFFER && !a.lfn
    requires b == ScanState(a.buf, true)
    ensures AllFit(run + [live] + rest)
    ensures var listed := Scan(rest, ScanState(ScanEnd(run, a).buf, false), idx + |run| + 1);
      && Scan(run + [live] + rest, a, idx) == [(idx + |run|, RunEntry(run, live, a))] + listed
      && Scan(run + [live] + rest, b, idx) == [(idx + |run|, RunEntry(run, live, b))] + listed
    ensures CStr(ScanEnd(run, a).buf) == CStr(ScanEnd(run, FRESH).buf) == CStr(ScanEnd(run, b).buf)
    ensures ScanEnd(run, a).lfn == AnyLast(run) && ScanEnd(run, b).lfn
  {
    hide *;
    var a1, b1 := ScanState(ScanEnd(run, a).buf, false), ScanState(ScanEnd(run, b).buf, false);
    RunThenLive(run, live, rest, a, idx);
    RunThenLive(run, live, rest, b, idx);
    FreshIs();
    RunIgnoresStale(run, a, FRESH);
    RunIgnoresStale(run, b, FRESH);
    ScanIgnoresStale(rest, a1, b1, idx + |run| + 1);
  }

  lemma FreshIs()
    ensures |FRESH.buf| == LFN_BUFFER && !FRESH.lfn
  {
  }

  lemma LongStays(slots: seq<Slot>)
    requires CleanDir(slots) && slots != [] && IsLong(slots[0])
    ensures Behind(slots) == slots
  {
    LongIsNotFree(slots, 0);
    hide CleanDir;
  }

  lemma NamesOfRun(slots: seq<Slot>, a: ScanState, b: ScanState)
    requires AllFit(slots) && Behind(slots) == slots && |a.buf| == LFN_BUFFER && !a.lfn && b == ScanState(a.buf, true)
    requires 0 < RunLength(slots) < |slots| && AllFit(slots[..RunLength(slots)])
    requires var run := slots[..RunLength(slots)];
      && CStr(ScanEnd(run, a).buf) == CStr(ScanEnd(run, FRESH).buf) == CStr(ScanEnd(run, b).buf)
      && ScanEnd(run, a).lfn == AnyLast(run) && ScanEnd(run, b).lfn
    ensures var run, live := slots[..RunLength(slots)], slots[RunLength(slots)];
      && RunEntry(run, live, b).name == NameTaken(slots, CStr(a.buf))
      && (RunEntry(run, live, b).name == RunEntry(run, live, a).name <==> NextKeepsName(slots, CStr(a.buf)))
      && var x, y := RunEntry(run, live, a), RunEntry(run, live, b);
         y == Entry(y.name, x.cluster, x.attr, x.size)
  {
    hide ScanEnd, CStr, ShortName, SlotCluster, SlotSize, AnyLast, AllFit, Behind;
  }

  lemma RenamedFirst(i: nat, x: Entry, y: Entry, rest: seq<(nat, Entry)>)
    requires y == Entry(y.name, x.cluster, x.attr, x.size)
    ensures [(i, y)] + rest == Renamed([(i, x)] + rest, y.name)
    ensures [(i, y)] + rest == [(i, x)] + rest <==> y.name == x.name
  {
    assert ([(i, x)] + rest)[1..] == rest;
    assert ([(i, x)] + rest)[0] == (i, x) && ([(i, y)] + rest)[0] == (i, y);
  }

  // ----- deleting any entry -----

  /** The entry in slot `idx` of a clean directory: its run of long-name slots, if it has one, stands right
      before its 8.3 slot. */
  ghost predicate EntryAt(slots: seq<Slot>, idx: nat, pre: seq<Slot>, run: seq<Slot>)
  {
    && idx < |slots| && |pre| + |run| == idx && slots == pre + run + [slots[idx]] + slots[idx + 1..]
    && CleanDir(pre) && (run == [] || GoodRun(run)) && IsLive(slots[idx]) && CleanDir(slots[idx + 1..])
  }

  lemma {:induction false} FindRun(slots: seq<Slot>, idx: nat) returns (pre: seq<Slot>, run: seq<Slot>)
    requires CleanDir(slots) && idx < |slots| && IsLive(slots[idx])
    ensures EntryAt(slots, idx, pre, run)
    decreases |slots|
  {
    var k := RunLength(slots);
    FirstEntry(slots, idx);
    hide *;
    if idx == k {
      pre, run := [], slots[..k];
      assert slots == [] + slots[..k] + [slots[k]] + slots[k + 1..];
      ScanNothing(FRESH, 0);
    } else {
      pre, run := FindRun(slots[k + 1..], idx - k - 1);
      BehindFirst(slots, k, idx, pre, run);
      pre := slots[..k] + [slots[k]] + pre;
    }
  }

  lemma FirstEntry(slots: seq<Slot>, idx: nat)
    requires CleanDir(slots) && idx < |slots| && IsLive(slots[idx])
    ensures var k := RunLength(slots);
      && k <= idx && (slots[..k] == [] || GoodRun(slots[..k])) && !IsLong(slots[k]) && CleanDir(slots[k + 1..])
      && (slots[..k] != [] ==> IsLive(slots[k]))
      && (idx > k ==> slots[k + 1..][idx - k - 1] == slots[idx])
    ensures |FRESH.buf| == LFN_BUFFER
  {
    hide GoodRun;
  }

  lemma BehindFirst(slots: seq<Slot>, k: nat, idx: nat, pre: seq<Slot>, run: seq<Slot>)
    requires k < idx < |slots| && (slots[..k] != [] ==> GoodRun(slots[..k]) && IsLive(slots[k])) && !IsLong(slots[k])
    requires EntryAt(slots[k + 1..], idx - k - 1, pre, run)
    ensures EntryAt(slots, idx, slots[..k] + [slots[k]] + pre, run)
  {
    hide *;
    var t, h := slots[k + 1..], slots[..k] + [slots[k]];
    EntryAtIs(t, idx - k - 1, pre, run);
    CleanBuild(slots[..k], slots[k], pre);
    SliceBehind(slots, k, idx);
    Shifted(slots, h, t, pre, run, [slots[idx]], slots[idx + 1..]);
    EntryAtFrom(slots, idx, h + pre, run);
  }

  lemma SliceBehind<T>(s: seq<T>, k: nat, i: nat)
    requires k < i < |s|
    ensures s[k + 1..][i - k - 1] == s[i] && s[k + 1..][i - k..] == s[i + 1..] && s == s[..k] + [s[k]] + s[k + 1..]
  {
  }

  lemma Shifted<T>(s: seq<T>, h: seq<T>, t: seq<T>, pre: seq<T>, run: seq<T>, x: seq<T>, post: seq<T>)
    requires s == h + t && t == pre + run + x + post
    ensures s == (h + pre) + run + x + post
  {
    Assoc(h, pre + run + x, post);
    Assoc(h, pre + run, x);
    Assoc(h, pre, run);
  }

  lemma EntryAtFrom(slots: seq<Slot>, idx: nat, pre: seq<Slot>, run: seq<Slot>)
    requires idx < |slots| && |pre| + |run| == idx && slots == pre + run + [slots[idx]] + slots[idx + 1..]
    requires CleanDir(pre) && (run == [] || GoodRun(run)) && IsLive(slots[idx]) && CleanDir(slots[idx + 1..])
    ensures EntryAt(slots, idx, pre, run)
  {
    hide CleanDir, GoodRun, IsLive;
  }

  lemma EntryAtParts(slots: seq<Slot>, idx: nat, pre: seq<Slot>, run: seq<Slot>, d: Slot)
    requires EntryAt(slots, idx, pre, run)
    ensures idx < |slots| && |pre| + |run| == idx && CleanDir(pre) && (run == [] || GoodRun(run))
    ensures IsLive(slots[idx]) && CleanDir(slots[idx + 1..])
    ensures slots == pre + (run + [slots[idx]] + slots[idx + 1..])
    ensures slots[idx := d] == pre + (run + ([d] + slots[idx + 1..]))
  {
    hide *;
    EntryAtIs(slots, idx, pre, run);
    Pieces(slots, pre, run, slots[idx], slots[idx + 1..], d);
  }

  lemma EntryAtIs(slots: seq<Slot>, idx: nat, pre: seq<Slot>, run: seq<Slot>)
    requires EntryAt(slots, idx, pre, run)
    ensures idx < |slots| && |pre| + |run| == idx && slots == pre + run + [slots[idx]] + slots[idx + 1..]
    ensures CleanDir(pre) && (run == [] || GoodRun(run)) && IsLive(slots[idx]) && CleanDir(slots[idx + 1..])
  {
    hide CleanDir, GoodRun, IsLive;
  }

  lemma Pieces<T>(s: seq<T>, pre: seq<T>, run: seq<T>, x: T, post: seq<T>, d: T)
    requires s == pre + run + [x] + post
    ensures |pre| + |run| < |s|
    ensures s == pre + (run + [x] + post) && s[|pre| + |run| := d] == pre + (run + ([d] + post))
  {
    var q := pre + run;
    assert (q + [x] + post)[|q| := d] == q + [d] + post;
    Assoc(pre, run, [x]);
    Assoc(pre, run + [x], post);
    Assoc(q, [d], post);
    Assoc(pre, run, [d] + post);
  }

  /** Deleting an entry takes it out of the scan and leaves the others. If its long-name slots, which stay,
      include one with the last-slot flag, the first entry behind it takes over their name, or keeps its own
      run's. So exactly that entry leaves if and only if that one is not renamed; and the directory stays
      clean if and only if there were no long-name slots. */
  lemma OrphanedNameIsTakenOver(slots: seq<Slot>, im: Image, idx: nat, pre: seq<Slot>, run: seq<Slot>, st: ScanState)
    returns (before: seq<(nat, Entry)>, e: Entry, behind: seq<(nat, Entry)>)
    requires im.name != [] && im.name[0] == DELETED && |Base(im.name)| <= 11 && im.attr != LONG_NAME
    requires EntryAt(slots, idx, pre, run) && idx < |slots| && Written(slots, im, true, idx).Some?
    requires |st.buf| == LFN_BUFFER && !st.lfn
    ensures var slots' := Written(slots, im, true, idx).value; var post := slots[idx + 1..];
      && AllFit(slots) && AllFit(slots') && AllFit(Behind(post))
      && Scan(slots, st, 0) == before + [(idx, e)] + behind
      && Scan(slots', st, 0) == before + (if AnyLast(run) then Renamed(behind, NameTaken(post, e.name)) else behind)
      && (Scan(slots', st, 0) == before + behind <==> (AnyLast(run) ==> NextKeepsName(post, e.name)))
      && (CleanDir(slots') <==> run == [])
  {
    hide *;
    DeletedSlot(slots, im, idx);
    var d, live, post := Written(slots, im, true, idx).value[idx], slots[idx], slots[idx + 1..];
    EntryAtParts(slots, idx, pre, run, d);
    CleanFits(pre);
    CleanFits(post);
    BehindFits(post);
    GoodRunIsLong(run);
    var s1 := ScanEnd(pre, st);
    ScanIgnoresStale(pre, st, st, 0);
    before := Scan(pre, st, 0);
    e, behind := GoneRun(run, live, d, post, s1, |pre|);
    ScanAppend(pre, run + [live] + post, st, 0);
    ScanAppend(pre, run + ([d] + post), st, 0);
    Assoc(before, [(idx, e)], behind);
    var now := if AnyLast(run) then Renamed(behind, NameTaken(post, e.name)) else behind;
    SameTail(before, now, behind);
    OpenRunIsNotClean(pre, run, d, post);
  }

  lemma SameTail<T>(a: seq<T>, b: seq<T>, c: seq<T>)
    ensures a + b == a + c <==> b == c
  {
    assert (a + b)[|a|..] == b && (a + c)[|a|..] == c;
  }

  /** A run left open by the free slot behind it. */
  lemma RunThenFree(run: seq<Slot>, d: Slot, post: seq<Slot>, st: ScanState, idx: nat)
    requires AllFit(run) && (forall i :: 0 <= i < |run| ==> IsLong(run[i])) && IsFree(d) && !IsLong(d)
    requires CleanDir(post) && AllFit(post) && AllFit(Behind(post)) && |st.buf| == LFN_BUFFER && !st.lfn
    ensures AllFit(run + ([d] + post))
    ensures var s2 := ScanEnd(run, st); var own := Scan(post, ScanState(s2.buf, false), idx + |run| + 1);
      var now := if AnyLast(run) then Renamed(own, NameTaken(post, CStr(s2.buf))) else own;
      && Scan(run + ([d] + post), st, idx) == now
      && (now == own <==> (AnyLast(run) ==> NextKeepsName(post, CStr(s2.buf))))
  {
    hide *;
    RunIsSilent(run, st, idx);
    var s2 := ScanEnd(run, st);
    StateIs(s2);
    FreeScan(d, s2, idx + |run|);
    ScanAppend([d], post, s2, idx + |run|);
    ScanAppend(run, [d] + post, st, idx);
    OpenRunScan(post, s2.buf, idx + |run| + 1);
  }

  lemma StateIs(s: ScanState)
    ensures s == ScanState(s.buf, s.lfn)
  {
  }

  /** What the scan sees from the entry's first slot on. */
  lemma GoneRun(run: seq<Slot>, live: Slot, d: Slot, post: seq<Slot>, st: ScanState, idx: nat)
    returns (e: Entry, behind: seq<(nat, Entry)>)
    requires (forall i :: 0 <= i < |run| ==> IsLong(run[i])) && AllFit(run) && IsLive(live)
    requires IsFree(d) && !IsLong(d) && CleanDir(post) && AllFit(post) && AllFit(Behind(post))
    requires |st.buf| == LFN_BUFFER && !st.lfn
    ensures AllFit(run + [live] + post) && AllFit(run + ([d] + post))
    ensures Scan(run + [live] + post, st, idx) == [(idx + |run|, e)] + behind
    ensures var now := if AnyLast(run) then Renamed(behind, NameTaken(post, e.name)) else behind;
      && Scan(run + ([d] + post), st, idx) == now
      && (now == behind <==> (AnyLast(run) ==> NextKeepsName(post, e.name)))
  {
    hide *;
    RunThenLive(run, live, post, st, idx);
    e, behind := RunEntry(run, live, st), Scan(post, ScanState(ScanEnd(run, st).buf, false), idx + |run| + 1);
    RunEntryName(run, live, st);
    RunThenFree(run, d, post, st, idx);
  }

  lemma RunEntryName(run: seq<Slot>, live: Slot, st: ScanState)
    requires |st.buf| == LFN_BUFFER && AllFit(run)
    ensures ScanEnd(run, st).lfn ==> RunEntry(run, live, st).name == CStr(ScanEnd(run, st).buf)
  {
  }

  lemma OpenRunIsNotClean(pre: seq<Slot>, run: seq<Slot>, d: Slot, post: seq<Slot>)
    requires CleanDir(pre) && CleanDir(post) && (run == [] || GoodRun(run)) && IsFree(d) && !IsLong(d)
    ensures CleanDir(pre + (run + ([d] + post))) <==> run == []
  {
    hide *;
    FreeThenClean(d);
    CleanAppend([d], post);
    if run == [] {
      assert run + ([d] + post) == [d] + post;
      CleanAppend(pre, [d] + post);
    } else {
      RunNeedsLive(run, d, post);
      var all := pre + (run + ([d] + post));
      if CleanDir(all) { AfterCleanPrefix(pre, run + ([d] + post), all); }
    }
  }

  lemma RunNeedsLive(run: seq<Slot>, d: Slot, post: seq<Slot>)
    requires GoodRun(run) && IsFree(d) && !IsLong(d)
    ensures !CleanDir(run + ([d] + post))
  {
    var all := run + ([d] + post);
    assert all[|run|] == d && all[0] == run[0];
    RunLengthIs(run, [d] + post);
  }
}
