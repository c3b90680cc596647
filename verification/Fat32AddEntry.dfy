/** `writeFAT32Entry`, and what it means for a scan of the directory. */
module Fat32AddEntry {
  import opened Wrappers
  import opened Bytes
  import opened Fat32Volume
  import opened Fat32Mount
  import opened Fat32Names
  import opened Fat32Scan
  import opened Fat32Entries
  import opened Fat32Aliases
  import opened Fat32Dir
  import opened Fat32Write

  // ----- room -----

  const EMPTY_SLOT: Slot := Zeros(32)

  lemma ZeroSlots(buf: seq<byte>)
    requires forall i :: 0 <= i < |buf| ==> buf[i] == 0
    ensures forall i :: 0 <= i < |AsSlots(buf)| ==> AsSlots(buf)[i] == EMPTY_SLOT
    ensures IsFree(EMPTY_SLOT) && !IsLong(EMPTY_SLOT)
  {
    forall i | 0 <= i < |buf| / 32
      ensures SlotAt(buf, i) == EMPTY_SLOT
    {
    }
  }

  /** Growing a directory appends one cluster of empty slots. */
  lemma GrownDir(v: Volume, dir: seq<nat>)
    requires WellFormed(v) && IsChain(v, dir) && Grow(v, Last(dir), 1).ok
    ensures var g := Grow(v, Last(dir), 1);
      && |g.added| == 1 && WellFormed(g.vol) && g.vol.bpc == v.bpc && IsChain(g.vol, dir + g.added)
      && Within(dir, |v.data|) && Within(dir + g.added, |g.vol.data|)
      && DirSlots(g.vol, dir + g.added) == DirSlots(v, dir) + AsSlots(g.vol.data[g.added[0]])
      && g.vol.data[g.added[0]] == Zeros(v.bpc)
  {
    ChainIsInUse(v, dir);
    assert Last(dir) in dir;
    var g := Grow(v, Last(dir), 1);
    GrowTakesFree(v, Last(dir), 1);
    GrowCount(v, Last(dir), 1);
    GrowExtendsChain(v, dir, 1);
    assert g.added == [g.added[0]];
    hide Grow, FirstFree, FreeSet;
    assert IsCluster(g.vol, (dir + g.added)[|dir|]);
    OldClusters(v, dir, g);
    DirAppend(g.vol, dir, g.added);
    DirFrame(v, g.vol, dir);
    OneRowDir(g.vol, g.added[0]);
  }

  lemma OldClusters(v: Volume, dir: seq<nat>, g: Growth)
    requires WellFormed(v) && IsChain(v, dir) && Grew(v, Last(dir), g)
    ensures Clusters(v, dir) && forall i :: 0 <= i < |dir| ==> g.vol.data[dir[i]] == v.data[dir[i]]
  {
    ChainIsInUse(v, dir);
    forall i | 0 <= i < |dir|
      ensures g.vol.data[dir[i]] == v.data[dir[i]]
    {
      assert dir[i] in dir && dir[i] !in g.added;
    }
  }

  lemma OneRowDir(v: Volume, c: nat)
    requires c < |v.data|
    ensures DirSlots(v, [c]) == AsSlots(v.data[c])
  {
    assert SlotRows(v, [c]) == [AsSlots(v.data[c])];
    assert Flatten([AsSlots(v.data[c])]) == AsSlots(v.data[c]) + Flatten<Slot>([]);
  }

  /** The room found or made: free slots of the directory, which otherwise is as before. */
  ghost predicate GoodRoom(v: Volume, dir: seq<nat>, needed: nat, room: Room)
    requires WellFormed(v) && IsChain(v, dir)
  {
    && WellFormed(room.vol) && room.vol.bpc == v.bpc && IsChain(room.vol, room.chain) && room.chain[0] == dir[0]
    && Within(room.chain, |room.vol.data|) && Within(dir, |v.data|)
    && room.start + needed <= |DirSlots(room.vol, room.chain)|
    && AllFree(DirSlots(room.vol, room.chain)[room.start..room.start + needed])
    && (room.chain == dir ==> room.vol == v)
    && (room.chain != dir ==>
          && room.start == |DirSlots(v, dir)|
          && DirSlots(v, dir) <= DirSlots(room.vol, room.chain)
          && forall i :: |DirSlots(v, dir)| <= i < |DirSlots(room.vol, room.chain)| ==>
               DirSlots(room.vol, room.chain)[i] == EMPTY_SLOT)
  }

  lemma RoomIsGood(v: Volume, dir: seq<nat>, needed: nat)
    requires WellFormed(v) && IsChain(v, dir) && 0 < needed <= PerCluster(v)
    requires MakeRoomIn(v, dir, needed).ok
    ensures GoodRoom(v, dir, needed, MakeRoomIn(v, dir, needed))
  {
    var slots := DirSlots(v, dir);
    var room := MakeRoomIn(v, dir, needed);
    hide DirSlots, Grow, WellFormed, IsChain, LeastFree;
    if LeastFree(slots, needed, 0) < |slots| {
      assert FreeRun(slots, room.start, needed);
    } else {
      GrownDir(v, dir);
      ZeroSlots(Zeros(v.bpc));
    }
  }

  // ----- writeFAT32Entry -----

  /** What writing a new entry leaves: nothing changed when no room can be made, the
      directory perhaps grown when no alias is left, the new slots stored otherwise. */
  ghost predicate Added(v: Volume, dir: seq<nat>, im: Image, v': Volume, ok: bool)
    requires WellFormed(v) && IsChain(v, dir) && |Base(im.name)| <= 11
  {
    var n := RequiredSlots(im.name);
    var room := MakeRoomIn(v, dir, n + 1);
    if !room.ok then !ok && v' == room.vol
    else
      && Within(room.chain, |room.vol.data|) && room.start + n < |DirSlots(room.vol, room.chain)|
      && var w := Written(DirSlots(room.vol, room.chain), im, false, room.start);
         && ok == w.Some?
         && (ok ==> DirBecame(room.vol, v', room.chain, w.value))
         && (!ok ==> v' == room.vol)
  }

  ghost predicate Overwritten(v: Volume, dir: seq<nat>, im: Image, idx: nat, v': Volume, ok: bool)
    requires WellFormed(v) && IsChain(v, dir) && |Base(im.name)| <= 11
  {
    && Within(dir, |v.data|) && idx < |DirSlots(v, dir)|
    && var w := Written(DirSlots(v, dir), im, true, idx);
       && ok == w.Some?
       && (ok ==> DirBecame(v, v', dir, w.value))
       && (!ok ==> v' == v)
  }

  /** The slots of a new entry lie in one cluster, and its offset in the directory fits 32 bits. */
  ghost predicate OneCluster(v: Volume, dir: seq<nat>, name: seq<byte>)
    requires WellFormed(v) && IsChain(v, dir)
  {
    var room := MakeRoomIn(v, dir, RequiredSlots(name) + 1);
    room.ok ==>
      && RowOf(room.start, PerCluster(v)) + RequiredSlots(name) < PerCluster(v)
      && room.start + RequiredSlots(name) < MAX_SLOTS
  }

  /** Index of the 8.3 slot of a new entry. */
  ghost function NewIndex(v: Volume, dir: seq<nat>, name: seq<byte>): nat
    requires WellFormed(v) && IsChain(v, dir)
  {
    MakeRoomIn(v, dir, RequiredSlots(name) + 1).start + RequiredSlots(name)
  }

  method WriteEntry(mount: FAT32Mount, entry: FAT32Entry, inPlace: bool, ghost dir: seq<nat>) returns (ok: bool)
    requires mount.Valid() && IsChain(mount.Vol(), dir) && dir[0] == entry.parentCluster && |Base(entry.name)| <= 11
    requires if inPlace then entry.parentEntryIdx < |DirSlots(mount.Vol(), dir)| && entry.parentEntryIdx < MAX_SLOTS
             else |DirSlots(mount.Vol(), dir)| < ENDOFCHAIN && OneCluster(mount.Vol(), dir, entry.name)
    modifies mount.device, entry`parentEntryIdx
    ensures mount.Valid()
    ensures var im := Image(entry.name, entry.attr, entry.cluster, entry.size);
      if inPlace then Overwritten(old(mount.Vol()), dir, im, old(entry.parentEntryIdx), mount.Vol(), ok)
      else Added(old(mount.Vol()), dir, im, mount.Vol(), ok)
    ensures inPlace ==> entry.parentEntryIdx == old(entry.parentEntryIdx)
    ensures !inPlace && ok ==> entry.parentEntryIdx == NewIndex(old(mount.Vol()), dir, entry.name)
  {
    hide mount.Vol, mount.Valid, DirSlots, MakeRoomIn, RequiredSlots, OneCluster, Added, Overwritten;
    var im := Image(entry.name, entry.attr, entry.cluster, entry.size);
    if inPlace {
      ok := OverwriteEntry(mount, entry.parentCluster, im, entry.parentEntryIdx, dir);
    } else {
      var startEntry;
      ok, startEntry := AddEntry(mount, entry.parentCluster, im, dir);
      entry.parentEntryIdx := startEntry + RequiredSlots(entry.name);
    }
  }

  method OverwriteEntry(mount: FAT32Mount, parentCluster: nat, im: Image, idx: nat, ghost dir: seq<nat>)
    returns (ok: bool)
    requires mount.Valid() && IsChain(mount.Vol(), dir) && dir[0] == parentCluster && |Base(im.name)| <= 11
    requires idx < |DirSlots(mount.Vol(), dir)| && idx < MAX_SLOTS
    modifies mount.device
    ensures mount.Valid() && Overwritten(old(mount.Vol()), dir, im, idx, mount.Vol(), ok)
  {
    SomewhereInCluster(mount.Vol(), dir, idx);
    hide mount.Vol, mount.Valid, DirSlots, Written, RowOf, DirBecame;
    ok := StoreSlots(mount, parentCluster, im, true, idx, 0, dir);
  }

  lemma SomewhereInCluster(v: Volume, dir: seq<nat>, idx: nat)
    requires WellFormed(v) && IsChain(v, dir) && idx < |DirSlots(v, dir)|
    ensures RowOf(idx, PerCluster(v)) < PerCluster(v)
  {
  }

  method AddEntry(mount: FAT32Mount, parentCluster: nat, im: Image, ghost dir: seq<nat>)
    returns (ok: bool, startEntry: nat)
    requires mount.Valid() && IsChain(mount.Vol(), dir) && dir[0] == parentCluster && |Base(im.name)| <= 11
    requires |DirSlots(mount.Vol(), dir)| < ENDOFCHAIN && OneCluster(mount.Vol(), dir, im.name)
    modifies mount.device
    ensures mount.Valid() && Added(old(mount.Vol()), dir, im, mount.Vol(), ok)
    ensures ok ==> startEntry == MakeRoomIn(old(mount.Vol()), dir, RequiredSlots(im.name) + 1).start
  {
    ghost var v := mount.Vol();
    hide mount.Vol, mount.Valid, DirSlots, Written, RowOf, DirBecame, MakeRoomIn, RequiredSlots;
    var lfnEntries := RequiredSlots(im.name);
    ghost var room := MakeRoomIn(v, dir, lfnEntries + 1);
    ok, startEntry := MakeRoom(mount, parentCluster, lfnEntries + 1, dir);
    if !ok { return; }
    RoomIsGood(v, dir, lfnEntries + 1);
    ok := StoreSlots(mount, parentCluster, im, false, startEntry, lfnEntries, room.chain);
  }

  // ----- reading back what was written -----

  lemma {:induction false} EmptySlotsAreClean(free: seq<Slot>)
    requires forall i :: 0 <= i < |free| ==> !IsLong(free[i])
    ensures CleanDir(free)
  {
    if free != [] { EmptySlotsAreClean(free[1..]); }
  }

  /** Making room changes nothing a scan sees. */
  lemma RoomScansTheSame(v: Volume, dir: seq<nat>, needed: nat, room: Room, st: ScanState)
    requires WellFormed(v) && IsChain(v, dir) && GoodRoom(v, dir, needed, room)
    requires CleanDir(DirSlots(v, dir)) && |st.buf| == LFN_BUFFER
    ensures var slots, slots' := DirSlots(v, dir), DirSlots(room.vol, room.chain);
      && CleanDir(slots') && AllFit(slots) && AllFit(slots') && Scan(slots', st, 0) == Scan(slots, st, 0)
  {
    hide *;
    var empty := EmptyTail(v, dir, needed, room);
    var slots := DirSlots(v, dir);
    CleanFits(slots);
    CleanAppend(slots, empty);
    FreeSlotsAreSilent(empty, ScanEnd(slots, st), |slots|);
    ScanAppend(slots, empty, st, 0);
  }

  lemma EmptyTail(v: Volume, dir: seq<nat>, needed: nat, room: Room) returns (empty: seq<Slot>)
    requires WellFormed(v) && IsChain(v, dir) && GoodRoom(v, dir, needed, room)
    ensures Within(dir, |v.data|) && Within(room.chain, |room.vol.data|)
    ensures DirSlots(room.vol, room.chain) == DirSlots(v, dir) + empty
    ensures AllFree(empty) && CleanDir(empty) && forall i :: 0 <= i < |empty| ==> !IsLong(empty[i])
  {
    var slots, slots' := DirSlots(v, dir), DirSlots(room.vol, room.chain);
    ZeroSlots(Zeros(32));
    hide DirSlots;
    empty := if room.chain == dir then [] else slots'[|slots|..];
    assert slots' == slots + empty;
    EmptySlotsAreClean(empty);
  }

  /** Slots that yield one entry, written over free slots of a well-formed directory. */
  lemma SpliceScan(slots: seq<Slot>, start: nat, mid: seq<Slot>, st: ScanState, found: seq<(nat, Entry)>)
    requires |st.buf| == LFN_BUFFER && !st.lfn && mid != [] && start + |mid| <= |slots|
    requires CleanDir(slots) && AllFree(slots[start..start + |mid|]) && CleanDir(mid) && AllFit(mid) && AllFit(slots)
    requires forall s: ScanState :: |s.buf| == LFN_BUFFER && !s.lfn ==> Scan(mid, s, start) == found
    ensures CleanDir(Splice(slots, start, mid)) && AllFit(Splice(slots, start, mid)) && AllFit(slots[..start])
    ensures var i := |Scan(slots[..start], st, 0)|; var before := Scan(slots, st, 0);
      && i <= |before| && before[..i] == Scan(slots[..start], st, 0)
      && Scan(Splice(slots, start, mid), st, 0) == before[..i] + found + before[i..]
  {
    hide *;
    var pre, free, post := slots[..start], slots[start..start + |mid|], slots[start + |mid|..];
    assert slots == pre + free + post;
    assert Splice(slots, start, mid) == pre + mid + post by { SpliceParts(slots, start, mid); }
    InsertScan(pre, free, post, mid, st, found);
  }

  lemma SpliceParts<T>(s: seq<T>, at: nat, d: seq<T>)
    requires at + |d| <= |s|
    ensures Splice(s, at, d) == s[..at] + d + s[at + |d|..]
  {
  }

  /** The entry a scan is to find for `im`, whose 8.3 slot is `short`. */
  function EntryOf(im: Image, short: Slot): Entry {
    Entry(if RequiredSlots(im.name) > 0 then im.name else ShortName(short), im.cluster, im.attr, im.size)
  }

  /** Names an entry can be written under and found again. */
  predicate Nameable(name: seq<byte>) {
    |Base(name)| <= 11 && NulFree(name) && 1 <= |name| <= 247 && name[0] != DELETED
  }

  lemma NewShortSlot(slots: seq<Slot>, im: Image, slot: Slot, a: seq<byte>)
    requires Nameable(im.name) && im.attr != LONG_NAME && |a| == 11 && AliasFor(slots, im.name) == Some(a)
    ensures var short := EntrySlot(slot, a, im.attr, im.cluster, im.size);
      && IsLive(short) && SlotCluster(short) == im.cluster && SlotSize(short) == im.size && short[11] == im.attr
      && short[..11] == a && short[12] == slot[12]
  {
    assert im.name[0] != 0;
    AliasIsNew(slots, im.name);
    EntrySlotFields(slot, a, im.attr, im.cluster, im.size);
    var short := EntrySlot(slot, a, im.attr, im.cluster, im.size);
    assert short[0] == short[..11][0];
  }

  lemma NewEntrySlotsScan(slots: seq<Slot>, im: Image, slot: Slot, a: seq<byte>, st: ScanState, start: nat)
    requires Nameable(im.name) && im.attr != LONG_NAME && |a| == 11 && AliasFor(slots, im.name) == Some(a)
    requires |st.buf| == LFN_BUFFER && !st.lfn
    ensures var n := RequiredSlots(im.name); var news := EntrySlots(im, false, a, slot);
      && CleanDir(news) && AllFit(news) && Scan(news, st, start) == [(start + n, EntryOf(im, news[n]))]
      && news[n][..11] == a && news[n][12] == slot[12]
  {
    hide *;
    NewShortSlot(slots, im, slot, a);
    NewSlotsShape(im, a, slot);
    NewSlotsScan(im.name, ChecksumFrom(a, 0, 0), EntrySlot(slot, a, im.attr, im.cluster, im.size), st, start);
  }

  lemma NewSlotsShape(im: Image, a: seq<byte>, slot: Slot)
    requires |a| == 11
    ensures var n := RequiredSlots(im.name); var news := EntrySlots(im, false, a, slot);
      var short := EntrySlot(slot, a, im.attr, im.cluster, im.size);
      && news == NewSlots(im.name, n, ChecksumFrom(a, 0, 0), short) && |news| == n + 1 && news[n] == short
      && EntryOf(im, short) == Entry(if n > 0 then im.name else ShortName(short), im.cluster, im.attr, im.size)
    ensures Nameable(im.name) ==> NulFree(im.name) && 1 <= |im.name| <= 247
  {
    hide RequiredSlots, EntrySlot, LongSlots, ShortName;
  }

  /** `after` is the scan `before` with one more entry. */
  ghost predicate OneMore(before: seq<(nat, Entry)>, after: seq<(nat, Entry)>, e: (nat, Entry))
  {
    exists i :: 0 <= i <= |before| && after == before[..i] + [e] + before[i..]
  }

  lemma WrittenScan(slots: seq<Slot>, im: Image, start: nat, st: ScanState)
    requires Nameable(im.name) && im.attr != LONG_NAME && |st.buf| == LFN_BUFFER && !st.lfn
    requires start + RequiredSlots(im.name) < |slots| && CleanDir(slots) && AllFit(slots)
    requires AllFree(slots[start..start + RequiredSlots(im.name) + 1])
    requires Written(slots, im, false, start).Some?
    ensures var n := RequiredSlots(im.name); var slots' := Written(slots, im, false, start).value;
      && CleanDir(slots') && AllFit(slots') && |slots'| == |slots|
      && OneMore(Scan(slots, st, 0), Scan(slots', st, 0), (start + n, EntryOf(im, slots'[start + n])))
      && AliasFor(slots, im.name) == Some(slots'[start + n][..11]) && slots'[start + n][12] == slots[start + n][12]
  {
    hide *;
    var n := RequiredSlots(im.name);
    var a := WrittenAlias(slots, im, start);
    var news := EntrySlots(im, false, a, slots[start + n]);
    NewEntrySlotsScan(slots, im, slots[start + n], a, st, start);
    var found := [(start + n, EntryOf(im, news[n]))];
    forall s: ScanState | |s.buf| == LFN_BUFFER && !s.lfn
      ensures Scan(news, s, start) == found
    {
      NewEntrySlotsScan(slots, im, slots[start + n], a, s, start);
    }
    SpliceScan(slots, start, news, st, found);
    OneMoreIs(Scan(slots, st, 0), |Scan(slots[..start], st, 0)|, found[0], Scan(Splice(slots, start, news), st, 0));
  }

  lemma WrittenAlias(slots: seq<Slot>, im: Image, start: nat) returns (a: seq<byte>)
    requires Nameable(im.name) && start + RequiredSlots(im.name) < |slots|
    requires Written(slots, im, false, start).Some?
    ensures |a| == 11 && AliasFor(slots, im.name) == Some(a)
    ensures var n := RequiredSlots(im.name); var news := EntrySlots(im, false, a, slots[start + n]);
      && |news| == n + 1 && Written(slots, im, false, start) == Some(Splice(slots, start, news))
      && Splice(slots, start, news)[start + n] == news[n]
  {
    hide RequiredSlots, AliasFor, EntrySlots, Base;
    a := AliasFor(slots, im.name).value;
    SpliceParts(slots, start, EntrySlots(im, false, a, slots[start + RequiredSlots(im.name)]));
  }

  lemma OneMoreIs(before: seq<(nat, Entry)>, i: nat, e: (nat, Entry), after: seq<(nat, Entry)>)
    requires i <= |before| && after == before[..i] + [e] + before[i..]
    ensures OneMore(before, after, e)
  {
  }

  lemma AddedIsWritten(v: Volume, dir: seq<nat>, im: Image, v': Volume) returns (n: nat, room: Room)
    requires WellFormed(v) && IsChain(v, dir) && |Base(im.name)| <= 11
    requires OneCluster(v, dir, im.name) && Added(v, dir, im, v', true)
    ensures n == RequiredSlots(im.name) && room == MakeRoomIn(v, dir, n + 1) && Within(dir, |v.data|)
    ensures NewIndex(v, dir, im.name) == room.start + n && GoodRoom(v, dir, n + 1, room)
    ensures Within(room.chain, |room.vol.data|) && Within(room.chain, |v'.data|)
    ensures var slots := DirSlots(room.vol, room.chain);
      && room.start + n < |slots| && AllFree(slots[room.start..room.start + n + 1])
      && Written(slots, im, false, room.start) == Some(DirSlots(v', room.chain))
  {
    hide RequiredSlots, DirSlots, MakeRoomIn, Written;
    n := RequiredSlots(im.name);
    room := MakeRoomIn(v, dir, n + 1);
    RoomIsGood(v, dir, n + 1);
  }

  /** Writing a new entry and scanning the directory gives every former entry unchanged
      and the new one with its name, cluster, attributes and size. */
  lemma NewEntryIsFound(v: Volume, dir: seq<nat>, im: Image, v': Volume, st: ScanState)
    requires WellFormed(v) && IsChain(v, dir) && CleanDir(DirSlots(v, dir)) && |st.buf| == LFN_BUFFER && !st.lfn
    requires Nameable(im.name) && im.attr != LONG_NAME && OneCluster(v, dir, im.name) && Added(v, dir, im, v', true)
    ensures var idx, room := NewIndex(v, dir, im.name), MakeRoomIn(v, dir, RequiredSlots(im.name) + 1);
      && Within(room.chain, |v'.data|) && AllFit(DirSlots(v, dir))
      && var slots' := DirSlots(v', room.chain);
         && CleanDir(slots') && AllFit(slots') && idx < |slots'|
         && OneMore(Scan(DirSlots(v, dir), st, 0), Scan(slots', st, 0), (idx, EntryOf(im, slots'[idx])))
  {
    hide *;
    NameableParts(im.name);
    var n, room := AddedIsWritten(v, dir, im, v');
    RoomScansTheSame(v, dir, n + 1, room, st);
    WrittenScan(DirSlots(room.vol, room.chain), im, room.start, st);
  }

  /** Whatever the room, the alias chosen is the one the directory itself calls for. */
  lemma {:induction false} FirstNumberedInRoom(slots: seq<Slot>, slots': seq<Slot>, name: seq<byte>, n: nat)
    requires |Base(name)| <= 11 && 1 <= n <= 1_000_000
    requires forall a: seq<byte> :: |a| == 11 && a != Zeros(11) ==> (Taken(slots', a) <==> Taken(slots, a))
    ensures FirstNumbered(slots', name, n) == FirstNumbered(slots, name, n)
    decreases 1_000_000 - n
  {
    hide NumberedAlias, Taken, Base;
    if n < 1_000_000 {
      NumberedIsNotEmpty(name, n);
      FirstNumberedInRoom(slots, slots', name, n + 1);
    }
  }

  lemma NumberedIsNotEmpty(name: seq<byte>, n: nat)
    requires |Base(name)| <= 11 && 1 <= n < 1_000_000
    ensures NumberedAlias(name, n) != Zeros(11)
  {
    DigitsFit(n);
    hide Base, MapUpper, AliasExt, Digits;
    assert NumberedAlias(name, n)[Min(|Base(name)|, 7 - |Digits(n)|)] == TILDE;
  }

  lemma EmptySlotsTakeNothing(slots: seq<Slot>, slots': seq<Slot>)
    requires slots <= slots' && forall i :: |slots| <= i < |slots'| ==> slots'[i] == EMPTY_SLOT
    ensures forall a: seq<byte> :: |a| == 11 && a != Zeros(11) ==> (Taken(slots', a) <==> Taken(slots, a))
  {
    assert EMPTY_SLOT[..11] == Zeros(11);
    forall a: seq<byte> | |a| == 11 && a != Zeros(11)
      ensures Taken(slots', a) <==> Taken(slots, a)
    {
      if Taken(slots', a) {
        var i :| 0 <= i < |slots'| && slots'[i][..11] == a;
        assert slots[i] == slots'[i];
      }
      if Taken(slots, a) {
        var i :| 0 <= i < |slots| && slots[i][..11] == a;
        assert slots[i] == slots'[i];
      }
    }
  }

  lemma SameAliases(slots: seq<Slot>, slots': seq<Slot>, name: seq<byte>)
    requires Nameable(name)
    requires slots <= slots' && forall i :: |slots| <= i < |slots'| ==> slots'[i] == EMPTY_SLOT
    ensures AliasFor(slots', name) == AliasFor(slots, name) && StoredAs(slots', name) == StoredAs(slots, name)
    ensures FoundAgain(slots', name) <==> FoundAgain(slots, name)
  {
    EmptySlotsTakeNothing(slots, slots');
    FirstNumberedInRoom(slots, slots', name, 1);
    if |Base(name)| <= 8 {
      assert PlainAlias(name) != Zeros(11) by { PlainIsNotEmpty(name); }
    }
    hide FirstNumbered, PlainAlias, Taken, RequiredSlots;
  }

  lemma PlainIsNotEmpty(name: seq<byte>)
    requires Nameable(name) && |Base(name)| <= 8
    ensures PlainAlias(name) != Zeros(11)
  {
    var a := PlainAlias(name);
    if Base(name) != [] { assert a[0] == Upper(name[0]); } else { assert a[0] == SPACE; }
  }

  lemma RoomAliases(v: Volume, dir: seq<nat>, needed: nat, room: Room, name: seq<byte>)
    requires WellFormed(v) && IsChain(v, dir) && GoodRoom(v, dir, needed, room) && Nameable(name)
    ensures var slots, slots' := DirSlots(v, dir), DirSlots(room.vol, room.chain);
      && AliasFor(slots', name) == AliasFor(slots, name) && StoredAs(slots', name) == StoredAs(slots, name)
      && (FoundAgain(slots', name) <==> FoundAgain(slots, name))
  {
    hide DirSlots, AliasFor, StoredAs, FoundAgain, Nameable, WellFormed, IsChain, AllFree;
    if room.chain != dir { SameAliases(DirSlots(v, dir), DirSlots(room.vol, room.chain), name); }
  }

  /** Without long-name slots, the name is found again exactly when its own plain alias is taken and no
      extension is missing behind a dot, and keeps its case exactly when, besides, the slot reused holds
      no case flag that applies to one of its capitals. */
  lemma EntryKeepsName(slots: seq<Slot>, im: Image, start: nat)
    requires Nameable(im.name) && im.attr != LONG_NAME && start + RequiredSlots(im.name) < |slots|
    requires Written(slots, im, false, start).Some?
    ensures var i := start + RequiredSlots(im.name); var e := EntryOf(im, Written(slots, im, false, start).value[i]);
      && SameName(e.name, StoredAs(slots, im.name))
      && (SameName(e.name, im.name) <==> FoundAgain(slots, im.name))
      && (e.name == im.name <==> FoundAgain(slots, im.name) && KeepsCase(slots[i], im.name))
  {
    hide *;
    var n := RequiredSlots(im.name);
    var a := WrittenAlias(slots, im, start);
    var slot := slots[start + n];
    var short := EntrySlot(slot, a, im.attr, im.cluster, im.size);
    NewSlotsShape(im, a, slot);
    EntrySlotFields(slot, a, im.attr, im.cluster, im.size);
    NameableParts(im.name);
    StoredUnderOwnName(slots, im.name);
    StoredIs(slots, im.name, a, slot);
    if n > 0 {
      SameAsItself(im.name);
    } else {
      SpellsAlias(short);
      SameNameTrans(ShortName(short), Spelled(a), im.name);
      ShortKeepsCase(slots, im.name, short, slot);
    }
  }

  /** The slot a new 8.3 slot replaces; one of a cluster that is only added for it is empty. */
  function SlotBefore(slots: seq<Slot>, idx: nat): Slot { if idx < |slots| then slots[idx] else EMPTY_SLOT }

  /** The same for the whole operation, in terms of the directory as it was. */
  lemma AddedKeepsName(v: Volume, dir: seq<nat>, im: Image, v': Volume)
    requires WellFormed(v) && IsChain(v, dir) && Nameable(im.name) && im.attr != LONG_NAME
    requires OneCluster(v, dir, im.name) && Added(v, dir, im, v', true)
    ensures var idx, chain := NewIndex(v, dir, im.name), MakeRoomIn(v, dir, RequiredSlots(im.name) + 1).chain;
      && Within(chain, |v'.data|) && Within(dir, |v.data|) && idx < |DirSlots(v', chain)|
      && var slots, e := DirSlots(v, dir), EntryOf(im, DirSlots(v', chain)[idx]);
         && SameName(e.name, StoredAs(slots, im.name))
         && (SameName(e.name, im.name) <==> FoundAgain(slots, im.name))
         && (e.name == im.name <==> FoundAgain(slots, im.name) && KeepsCase(SlotBefore(slots, idx), im.name))
  {
    hide *;
    NameableParts(im.name);
    var n, room := AddedIsWritten(v, dir, im, v');
    WrittenLength(DirSlots(room.vol, room.chain), im, room.start);
    EntryKeepsName(DirSlots(room.vol, room.chain), im, room.start);
    RoomAliases(v, dir, n + 1, room, im.name);
    RoomSlot(v, dir, n + 1, room, room.start + n);
  }

  lemma WrittenLength(slots: seq<Slot>, im: Image, start: nat)
    requires |Base(im.name)| <= 11 && start + RequiredSlots(im.name) < |slots| && Written(slots, im, false, start).Some?
    ensures |Written(slots, im, false, start).value| == |slots|
  {
  }

  lemma RoomSlot(v: Volume, dir: seq<nat>, needed: nat, room: Room, i: nat)
    requires WellFormed(v) && IsChain(v, dir) && GoodRoom(v, dir, needed, room)
    requires i < |DirSlots(room.vol, room.chain)|
    ensures DirSlots(room.vol, room.chain)[i] == SlotBefore(DirSlots(v, dir), i)
  {
    hide DirSlots, AllFree;
  }

  /** No case flag of the slot applies to a capital of a name stored without long-name slots. */
  predicate KeepsCase(slot: Slot, name: seq<byte>) {
    RequiredSlots(name) == 0 ==> !(BaseLow(slot) && AnyUpper(Base(name))) && !(ExtLow(slot) && AnyUpper(Ext(name)))
  }

  lemma NameableParts(name: seq<byte>)
    requires Nameable(name)
    ensures NulFree(name) && name != [] && |Base(name)| <= 11
  {
  }

  lemma SameAsItself(name: seq<byte>)
    ensures SameName(name, name)
  {
  }

  lemma SameNameTrans(a: seq<byte>, b: seq<byte>, c: seq<byte>)
    requires SameName(a, b)
    ensures SameName(a, c) <==> SameName(b, c)
  {
  }

  lemma StoredIs(slots: seq<Slot>, name: seq<byte>, a: seq<byte>, slot: Slot)
    requires |Base(name)| <= 11 && |a| == 11 && AliasFor(slots, name) == Some(a)
    ensures StoredAs(slots, name) == if RequiredSlots(name) > 0 then name else Spelled(a)
    ensures RequiredSlots(name) > 0 ==> FoundAgain(slots, name) && KeepsCase(slot, name)
  {
    hide AliasFor, RequiredSlots;
  }

  lemma ShortKeepsCase(slots: seq<Slot>, name: seq<byte>, short: Slot, slot: Slot)
    requires RequiredSlots(name) == 0 && name != [] && NulFree(name) && |Base(name)| <= 11
    requires AliasFor(slots, name) == Some(short[..11]) && short[12] == slot[12]
    ensures ShortName(short) == name <==> FoundAgain(slots, name) && KeepsCase(slot, name)
  {
    hide *;
    SpellsAlias(short);
    StoredUnderOwnName(slots, name);
    StoredIs(slots, name, short[..11], slot);
    SameAsItself(name);
    SameNameTrans(ShortName(short), Spelled(short[..11]), name);
    if FoundAgain(slots, name) {
      FoundByPlainAlias(slots, name);
      ShortNameRoundTrip(name, short);
      SameFlags(short, slot, name);
    }
  }

  lemma FoundByPlainAlias(slots: seq<Slot>, name: seq<byte>)
    requires FoundAgain(slots, name) && RequiredSlots(name) == 0 && name != []
    ensures IsShort(name) && |Base(name)| <= 8 && AliasFor(slots, name) == Some(PlainAlias(name))
    ensures HasDot(name) ==> Ext(name) != []
  {
    PlainAliasTaken(slots, name);
    hide TakesPlainAlias, AliasFor, PlainAlias;
  }

  lemma SameFlags(a: Slot, b: Slot, name: seq<byte>)
    requires a[12] == b[12] && RequiredSlots(name) == 0
    ensures KeepsCase(b, name) <==> !(BaseLow(a) && AnyUpper(Base(name))) && !(ExtLow(a) && AnyUpper(Ext(name)))
  {
  }
}
