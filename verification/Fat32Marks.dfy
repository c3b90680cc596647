/** Slots that begin with the deletion mark although nothing was deleted here: new entries whose names begin with
    it, and long-name slots that another driver deleted. */
module Fat32Marks {
  import opened Wrappers
  import opened Bytes
  import opened Fat32Volume
  import opened Fat32Names
  import opened Fat32Scan
  import opened Fat32Entries
  import opened Fat32Dir
  import opened Fat32Write
  import opened Fat32AddEntry
  import opened Fat32Delete

  // ----- names that begin with the mark -----

  /** Otherwise such a name is like any other. */
  predicate MarkedName(name: seq<byte>) {
    |Base(name)| <= 11 && NulFree(name) && 1 <= |name| <= 247 && name[0] == DELETED
  }

  /** The slots written for a marked name: its long-name slots, and a free one. */
  lemma MarkedSlots(slots: seq<Slot>, im: Image, start: nat) returns (run: seq<Slot>, d: Slot)
    requires MarkedName(im.name) && im.attr != LONG_NAME && start + RequiredSlots(im.name) < |slots|
    requires Written(slots, im, false, start).Some?
    ensures |run| == RequiredSlots(im.name) && IsFree(d) && !IsLong(d)
    ensures exists checksum: byte :: run == LongSlots(im.name, |run|, checksum)
    ensures Written(slots, im, false, start) == Some(Splice(slots, start, run + [d]))
  {
    hide *;
    MarkedParts(im.name);
    WrittenIs(slots, im, false, start);
    DeletedAlias(slots, im.name);
    var n := RequiredSlots(im.name);
    var a := AliasFor(slots, im.name).value;
    d := EntrySlot(slots[start + n], a, im.attr, im.cluster, im.size);
    DeletedMark(slots[start + n], a, im);
    NewSlotsShape(im, a, slots[start + n]);
    run := LongSlots(im.name, n, ChecksumFrom(a, 0, 0));
    SlotsOfName(im.name, n, ChecksumFrom(a, 0, 0), d);
  }

  lemma MarkedParts(name: seq<byte>)
    requires MarkedName(name)
    ensures name != [] && name[0] == DELETED && |Base(name)| <= 11 && NulFree(name) && 1 <= |name| <= 247
  {
  }

  lemma SlotsOfName(name: seq<byte>, n: nat, checksum: byte, d: Slot)
    requires n <= 20
    ensures NewSlots(name, n, checksum, d) == LongSlots(name, n, checksum) + [d]
    ensures |LongSlots(name, n, checksum)| == n
  {
    hide LongSlots;
  }

  lemma MarkedRun(name: seq<byte>, checksum: byte, st: ScanState)
    requires MarkedName(name) && |st.buf| == LFN_BUFFER && !st.lfn
    ensures var run := LongSlots(name, RequiredSlots(name), checksum);
      && AllFit(run) && (forall i :: 0 <= i < |run| ==> IsLong(run[i]))
      && (AnyLast(run) <==> RequiredSlots(name) > 0)
      && (AnyLast(run) ==> CStr(ScanEnd(run, st).buf) == name)
  {
    var run := LongSlots(name, RequiredSlots(name), checksum);
    hide LongSlot, ScanEnd, CStr, GoodRun, IsShort;
    if RequiredSlots(name) > 0 {
      LongNameRoundTrip(name, checksum, st, 0);
      GoodRunIsLong(run);
    }
  }

  /** A new entry whose name begins with the mark is never listed: nothing is added to the scan. Its long-name
      slots, if it has any, stay open, and the first entry behind it takes over its name. */
  lemma MarkedNameIsNotListed(slots: seq<Slot>, im: Image, start: nat, st: ScanState)
    returns (before: seq<(nat, Entry)>, behind: seq<(nat, Entry)>, post: seq<Slot>)
    requires MarkedName(im.name) && im.attr != LONG_NAME && |st.buf| == LFN_BUFFER && !st.lfn
    requires start + RequiredSlots(im.name) < |slots| && CleanDir(slots)
    requires AllFree(slots[start..start + RequiredSlots(im.name) + 1])
    requires Written(slots, im, false, start).Some?
    ensures post == slots[start + RequiredSlots(im.name) + 1..] && AllFit(Behind(post)) && AllFit(slots[..start])
    ensures var n, slots' := RequiredSlots(im.name), Written(slots, im, false, start).value;
      && AllFit(slots) && AllFit(slots')
      && before == Scan(slots[..start], st, 0) && Scan(slots, st, 0) == before + behind
      && Scan(slots', st, 0) == before + (if n > 0 then Renamed(behind, NameTaken(post, im.name)) else behind)
      && (Scan(slots', st, 0) == Scan(slots, st, 0) <==> (n > 0 ==> NextKeepsName(post, im.name)))
  {
    hide *;
    var n := RequiredSlots(im.name);
    var run, d := MarkedSlots(slots, im, start);
    var checksum: byte :| run == LongSlots(im.name, n, checksum);
    post := slots[start + n + 1..];
    var pre, free := slots[..start], slots[start..start + n + 1];
    assert slots == pre + free + post;
    SpliceParts(slots, start, run + [d]);
    CleanOutside(pre, free, post);
    BehindFits(post);
    var s1 := ScanEnd(pre, st);
    ScanIgnoresStale(pre, st, st, 0);
    MarkedRun(im.name, checksum, s1);
    RunThenFree(run, d, post, s1, start);
    FreeSlotsAreSilent(free, s1, start);
    ScanThree(pre, free, post, st);
    ScanAppend(pre, run + ([d] + post), st, 0);
    Assoc(pre, run + [d], post);
    Assoc(run, [d], post);
    ScanIgnoresStale(post, s1, ScanState(ScanEnd(run, s1).buf, false), start + n + 1);
    before, behind := Scan(pre, st, 0), Scan(post, s1, start + n + 1);
    SameTail(before, Scan(run + ([d] + post), s1, start), behind);
  }

  lemma CleanOutside(pre: seq<Slot>, free: seq<Slot>, post: seq<Slot>)
    requires |free| > 0 && CleanDir(pre + free + post) && AllFree(free)
    ensures CleanDir(pre) && CleanDir(post) && AllFit(pre) && AllFit(post) && AllFit(pre + free + post)
    ensures forall i :: 0 <= i < |free| ==> !IsLong(free[i])
  {
    hide *;
    FreshIs();
    ScanNothing(FRESH, 0);
    InsertClean(pre, free, post, []);
    CleanFits(pre);
    CleanFits(post);
    CleanFits(pre + free + post);
  }

  /** So adding an entry under such a name succeeds and lists nothing more. */
  lemma AddedMarkedName(v: Volume, dir: seq<nat>, im: Image, v': Volume, st: ScanState)
    returns (before: seq<(nat, Entry)>, behind: seq<(nat, Entry)>, name: seq<byte>)
    requires WellFormed(v) && IsChain(v, dir) && CleanDir(DirSlots(v, dir)) && |st.buf| == LFN_BUFFER && !st.lfn
    requires MarkedName(im.name) && im.attr != LONG_NAME && |Base(im.name)| <= 11 && OneCluster(v, dir, im.name)
    requires Added(v, dir, im, v', true)
    ensures var chain := MakeRoomIn(v, dir, RequiredSlots(im.name) + 1).chain;
      && Within(dir, |v.data|) && Within(chain, |v'.data|)
      && AllFit(DirSlots(v, dir)) && AllFit(DirSlots(v', chain))
      && Scan(DirSlots(v, dir), st, 0) == before + behind
      && Scan(DirSlots(v', chain), st, 0) ==
           before + if RequiredSlots(im.name) > 0 then Renamed(behind, name) else behind
  {
    hide *;
    var n, room := AddedIsWritten(v, dir, im, v');
    RoomScansTheSame(v, dir, n + 1, room, st);
    var post;
    before, behind, post := MarkedNameIsNotListed(DirSlots(room.vol, room.chain), im, room.start, st);
    name := NameTaken(post, im.name);
  }

  // ----- long-name slots marked deleted -----

  /** A long-name slot as the standard deletes it; the parser takes the mark for number 5 with the last-slot flag. */
  predicate IsDeletedLong(s: Slot) { IsLong(s) && s[0] == DELETED }

  /** What such slots leave in the buffer: the characters of the last one, at the fifth place. */
  lemma {:induction false} DeletedRunEnds(run: seq<Slot>, st: ScanState, idx: nat)
    requires run != [] && |st.buf| == LFN_BUFFER && forall i :: 0 <= i < |run| ==> IsDeletedLong(run[i])
    ensures AllFit(run) && Scan(run, st, idx) == []
    ensures ScanEnd(run, st) == ScanState(Splice(st.buf, 52, Chunk(run[|run| - 1]) + [0]), true)
    decreases |run|
  {
    var s, st1 := run[0], ParseSlot(run[0], st).0;
    assert st1 == ScanState(Splice(st.buf, 52, Chunk(s) + [0]), true);
    hide Chunk, ParseSlot;
    if |run| > 1 {
      DeletedRunEnds(run[1..], st1, idx + 1);
      LaidOver(st.buf, 52, Chunk(s) + [0], Chunk(run[|run| - 1]) + [0]);
    } else {
      ScanOne(s, st, idx);
      assert run == [s];
    }
  }

  lemma LaidOver<T>(s: seq<T>, at: nat, a: seq<T>, b: seq<T>)
    requires |a| == |b| && at + |a| <= |s|
    ensures Splice(Splice(s, at, a), at, b) == Splice(s, at, b)
  {
  }

  /** They do not end a run of their own, so the next entry without long-name slots loses its name: it gets what
      the buffer last held, or nothing if that is a fresh buffer. */
  lemma DeletedLongSlotsRename(run: seq<Slot>, free: seq<Slot>, live: Slot, st: ScanState, idx: nat)
    requires run != [] && |st.buf| == LFN_BUFFER && forall i :: 0 <= i < |run| ==> IsDeletedLong(run[i])
    requires AllFree(free) && (forall i :: 0 <= i < |free| ==> !IsLong(free[i])) && IsLive(live)
    ensures AllFit(run + free + [live])
    ensures var name := CStr(Splice(st.buf, 52, Chunk(run[|run| - 1]) + [0]));
      && Scan(run + free + [live], st, idx) ==
           [(idx + |run| + |free|, Entry(name, SlotCluster(live), live[11], SlotSize(live)))]
      && (|CStr(st.buf)| < 52 ==> name == CStr(st.buf))
  {
    hide *;
    DeletedRunEnds(run, st, idx);
    var end := ScanEnd(run, st);
    FreeSlotsAreSilent(free, end, idx + |run|);
    NamedByBuffer(live, end, idx + |run| + |free|);
    ScanAppend(run, free, st, idx);
    ScanAppend(run + free, [live], st, idx);
    EarlierNameStays(st.buf, Chunk(run[|run| - 1]) + [0]);
  }

  lemma NamedByBuffer(live: Slot, st: ScanState, idx: nat)
    requires IsLive(live) && |st.buf| == LFN_BUFFER && st.lfn
    ensures AllFit([live])
    ensures Scan([live], st, idx) == [(idx, Entry(CStr(st.buf), SlotCluster(live), live[11], SlotSize(live)))]
  {
    ScanOne(live, st, idx);
  }

  lemma EarlierNameStays(buf: seq<byte>, d: seq<byte>)
    requires |buf| == LFN_BUFFER
    ensures |CStr(buf)| < 52 ==> CStr(Splice(buf, 52, d)) == CStr(buf)
  {
    var name := CStr(buf);
    if |name| < 52 {
      hide CStr;
      var r := Splice(buf, 52, d);
      assert r[..52] == buf[..52];
      assert name == r[..52][..|name|] && r[|name|] == r[..52][|name|] == buf[..52][|name|];
      CStrIs(r, name);
    }
  }
}
