/** What writing an existing entry in place does to the listing of its directory, and to lookup. */
module Fat32Update {
  import opened Wrappers
  import opened Bytes
  import opened Fat32Volume
  import opened Fat32Names
  import opened Fat32Scan
  import opened Fat32Entries
  import opened Fat32Dir
  import opened Fat32Write
  import opened Fat32AddEntry
  import opened Fat32Path
  import opened Fat32File
  import opened Fat32WriteFile
  import opened Fat32Create

  // ----- one slot rewritten -----

  /** The listing with the size of the entry at slot `idx` replaced. */
  function Resized(listing: seq<(nat, Entry)>, idx: nat, size: u32): (r: seq<(nat, Entry)>)
    ensures |r| == |listing|
  {
    seq(|listing|, i requires 0 <= i < |listing| =>
      if listing[i].0 == idx then (idx, listing[i].1.(size := size)) else listing[i])
  }

  lemma ResizedJoins(a: seq<(nat, Entry)>, b: seq<(nat, Entry)>, idx: nat, size: u32)
    ensures Resized(a + b, idx, size) == Resized(a, idx, size) + Resized(b, idx, size)
  {
  }

  lemma {:induction false} ScanIndices(slots: seq<Slot>, st: ScanState, base: nat, e: (nat, Entry))
    requires |st.buf| == LFN_BUFFER && AllFit(slots) && e in Scan(slots, st, base)
    ensures base <= e.0 < base + |slots| && IsLive(slots[e.0 - base])
    ensures e.1.cluster == SlotCluster(slots[e.0 - base]) && e.1.attr == slots[e.0 - base][11]
    ensures e.1.size == SlotSize(slots[e.0 - base])
    decreases |slots|
  {
    if slots != [] {
      var (st', r) := ParseSlot(slots[0], st);
      if e in Scan(slots[1..], st', base + 1) { ScanIndices(slots[1..], st', base + 1, e); }
    }
  }

  lemma NothingResized(slots: seq<Slot>, st: ScanState, base: nat, idx: nat, size: u32)
    requires |st.buf| == LFN_BUFFER && AllFit(slots) && idx < base
    ensures Resized(Scan(slots, st, base), idx, size) == Scan(slots, st, base)
  {
    var l := Scan(slots, st, base);
    forall i | 0 <= i < |l|
      ensures l[i].0 != idx
    {
      ScanIndices(slots, st, base, l[i]);
    }
  }

  /** Slot `t` is slot `s` with another size. */
  ghost predicate SameButSize(s: Slot, t: Slot, size: u32)
  {
    && IsLive(s) && IsLive(t) && ShortName(t) == ShortName(s) && t[11] == s[11]
    && SlotCluster(t) == SlotCluster(s) && SlotSize(t) == size
  }

  lemma {:induction false} ScanResized(slots: seq<Slot>, idx: nat, t: Slot, size: u32, st: ScanState, base: nat)
    requires |st.buf| == LFN_BUFFER && AllFit(slots) && idx < |slots| && SameButSize(slots[idx], t, size)
    ensures AllFit(slots[idx := t])
    ensures Scan(slots[idx := t], st, base) == Resized(Scan(slots, st, base), base + idx, size)
    decreases |slots|
  {
    hide ShortName, SlotCluster, SlotSize, StoreChunk, CStr;
    var slots' := slots[idx := t];
    var (st', r) := ParseSlot(slots[0], st);
    var head: seq<(nat, Entry)> := if r.Some? then [(base, r.value)] else [];
    assert Scan(slots, st, base) == head + Scan(slots[1..], st', base + 1);
    ResizedJoins(head, Scan(slots[1..], st', base + 1), base + idx, size);
    if idx == 0 {
      assert slots'[1..] == slots[1..];
      NothingResized(slots[1..], st', base + 1, base, size);
    } else {
      assert slots'[1..] == slots[1..][idx - 1 := t];
      ScanResized(slots[1..], idx - 1, t, size, st', base + 1);
    }
  }

  lemma {:induction false} CleanResized(slots: seq<Slot>, idx: nat, t: Slot)
    requires CleanDir(slots) && idx < |slots| && IsLive(slots[idx]) && IsLive(t)
    ensures CleanDir(slots[idx := t])
    decreases |slots|
  {
    hide GoodRun;
    var slots', k := slots[idx := t], RunLength(slots);
    assert slots == slots[..k] + slots[k..] && slots' == slots[..k] + slots'[k..];
    RunLengthIs(slots[..k], slots'[k..]);
    assert slots'[..k] == slots[..k];
    if idx == k {
      assert slots'[k + 1..] == slots[k + 1..];
    } else {
      assert slots'[k + 1..] == slots[k + 1..][idx - k - 1 := t];
      CleanResized(slots[k + 1..], idx - k - 1, t);
    }
  }

  /** Writing an entry in place leaves the directory as it was, but for the entry's size. */
  lemma OverwriteScan(slots: seq<Slot>, im: Image, idx: nat, st: ScanState)
    requires CleanDir(slots) && |st.buf| == LFN_BUFFER && idx < |slots| && IsLive(slots[idx])
    requires im.name != [] && im.name[0] != 0 && im.name[0] != DELETED && |Base(im.name)| <= 11
    requires im.attr == slots[idx][11] && im.cluster == SlotCluster(slots[idx]) && Written(slots, im, true, idx).Some?
    ensures var slots' := Written(slots, im, true, idx).value;
      && CleanDir(slots') && AllFit(slots) && AllFit(slots') && |slots'| == |slots|
      && Scan(slots', st, 0) == Resized(Scan(slots, st, 0), idx, im.size)
  {
    hide *;
    CleanFits(slots);
    var t := InPlaceSlot(slots, im, idx);
    ScanResized(slots, idx, t, im.size, st, 0);
    CleanResized(slots, idx, t);
  }

  lemma InPlaceSlot(slots: seq<Slot>, im: Image, idx: nat) returns (t: Slot)
    requires idx < |slots| && IsLive(slots[idx])
    requires im.name != [] && im.name[0] != 0 && im.name[0] != DELETED && |Base(im.name)| <= 11
    requires im.attr == slots[idx][11] && im.cluster == SlotCluster(slots[idx]) && Written(slots, im, true, idx).Some?
    ensures SameButSize(slots[idx], t, im.size) && IsLive(t) && Written(slots, im, true, idx) == Some(slots[idx := t])
  {
    var s := slots[idx];
    t := EntrySlot(s, s[..11], im.attr, im.cluster, im.size);
    EntrySlotFields(s, s[..11], im.attr, im.cluster, im.size);
    assert t[0] == t[..11][0] && t[..8] == t[..11][..8] && t[8..11] == t[..11][8..];
    assert s[..8] == s[..11][..8] && s[8..11] == s[..11][8..];
    hide EntrySlot, AliasFor, ChecksumFrom, Base, SlotCluster, SlotSize;
    var a := AliasFor(slots, im.name).value;
    assert LongSlots(im.name, 0, ChecksumFrom(a, 0, 0)) == [];
    assert EntrySlots(im, true, a, s) == [t];
    assert Splice(slots, idx, [t]) == slots[idx := t];
  }

  // ----- one directory -----

  lemma {:induction false} MatchResized(listing: seq<(nat, Entry)>, idx: nat, size: u32, name: seq<byte>)
    ensures FirstMatch(Resized(listing, idx, size), name) == match FirstMatch(listing, name)
      case None => None
      case Some(m) => Some(if m.0 == idx then (idx, m.1.(size := size)) else m)
  {
    if listing != [] {
      var r := Resized(listing, idx, size);
      assert r[1..] == Resized(listing[1..], idx, size);
      MatchResized(listing[1..], idx, size, name);
    }
  }

  lemma ListedIsLive(v: Volume, chain: seq<nat>, name: seq<byte>, m: (nat, Entry))
    requires Within(chain, |v.data|) && AllFit(DirSlots(v, chain)) && FirstMatch(Listing(v, chain), name) == Some(m)
    ensures var slots := DirSlots(v, chain);
      && m.0 < |slots| && IsLive(slots[m.0]) && m.1.cluster == SlotCluster(slots[m.0]) && m.1.attr == slots[m.0][11]
      && m.1.size == SlotSize(slots[m.0])
  {
    var l := Listing(v, chain);
    var i :| 0 <= i < |l| && l[i] == m && SameName(m.1.name, name);
    ScanIndices(DirSlots(v, chain), ScanState(Zeros(LFN_BUFFER), false), 0, l[i]);
  }

  /** Writing an entry of this name in place rewrites its fields only; the first character is the one that
      `writeFAT32Entry` looks at. */
  predicate Updatable(name: seq<byte>) {
    |Base(name)| <= 11 && name != [] && name[0] != 0 && name[0] != DELETED
  }

  /** The entry `e` stands in slot `idx` of the directory. */
  ghost predicate Stands(v: Volume, dir: seq<nat>, idx: nat, e: Entry)
  {
    && Updatable(e.name)
    && Within(dir, |v.data|) && idx < |DirSlots(v, dir)|
    && var s := DirSlots(v, dir)[idx];
       IsLive(s) && e.cluster == SlotCluster(s) && e.attr == s[11] && e.size == SlotSize(s)
  }

  /** Overwriting an entry's size keeps a directory one, and changes that size in its listing, provided some
      alias is left for the name: the alias is asked for even where it is not written. */
  lemma OverwriteListing(v: Volume, p: nat, dir: seq<nat>, e: Entry, idx: nat, size: u32, v': Volume, ok: bool)
    requires WellFormed(v) && IsDir(v, p, dir) && Stands(v, dir, idx, e)
    requires IsChain(v, dir) && Overwritten(v, dir, Image(e.name, e.attr, e.cluster, size), idx, v', ok)
    ensures Within(dir, |v.data|) && Within(dir, |v'.data|) && WellFormed(v') && IsDir(v', p, dir)
    ensures ok <==> AliasFor(DirSlots(v, dir), e.name).Some?
    ensures Listing(v', dir) == if ok then Resized(Listing(v, dir), idx, size) else Listing(v, dir)
  {
    var im := Image(e.name, e.attr, e.cluster, size);
    UpdateKeeps(v, dir, im, idx, v', ok, dir);
    WrittenIs(DirSlots(v, dir), im, true, idx);
    hide Written, DirSlots, Scan, AliasFor, EntrySlots, IsLive, SlotCluster, Base, WellFormed, IsChain, CleanDir,
      AllFit;
    if ok { OverwriteScan(DirSlots(v, dir), im, idx, ScanState(Zeros(LFN_BUFFER), false)); }
  }

  // ----- lookup -----

  /** From `v` to `v'` the directories list what they listed, but for the size of one entry. */
  ghost predicate ListsResized(v: Volume, dirs: map<nat, seq<nat>>, v': Volume, p: nat, idx: nat, size: u32)
  {
    && AreDirs(v, dirs) && AreDirs(v', dirs)
    && forall d :: d in dirs ==> SameListingBut(v, dirs[d], v', d == p, idx, size)
  }

  ghost predicate SameListingBut(v: Volume, chain: seq<nat>, v': Volume, here: bool, idx: nat, size: u32)
  {
    && Within(chain, |v.data|) && AllFit(DirSlots(v, chain)) && Within(chain, |v'.data|) && AllFit(DirSlots(v', chain))
    && Listing(v', chain) == if here then Resized(Listing(v, chain), idx, size) else Listing(v, chain)
  }

  function ResizedFound(f: Option<Found>, p: nat, idx: nat, size: u32): Option<Found> {
    match f
    case None => None
    case Some(f) => Some(if f.parentCluster == p && f.entryIdx == idx then f.(entry := f.entry.(size := size)) else f)
  }

  /** Then every path leads where it led, and the one entry has its new size. */
  lemma {:induction false} FindResized(v: Volume, dirs: map<nat, seq<nat>>, v': Volume, p: nat, idx: nat, size: u32,
                                       path: seq<byte>, start: nat)
    requires ListsResized(v, dirs, v', p, idx, size) && AreDirs(v, dirs) && AreDirs(v', dirs)
    requires start in dirs && p != BAD_CLUSTER
    ensures Find(v', dirs, path, start) == ResizedFound(Find(v, dirs, path, start), p, idx, size)
    ensures Walkable(v', dirs, path, start) <==> Walkable(v, dirs, path, start)
    decreases |path|
  {
    var name := Unslashed(path);
    if name != [] {
      assert SameListingBut(v, dirs[start], v', start == p, idx, size);
      var chrIdx := IndexOf(name, SLASH);
      var m := FirstMatch(Listing(v, dirs[start]), name[..chrIdx]);
      var m' := FirstMatch(Listing(v', dirs[start]), name[..chrIdx]);
      MatchResized(Listing(v, dirs[start]), idx, size, name[..chrIdx]);
      FindStep(v, dirs, path, start, name, chrIdx, m);
      FindStep(v', dirs, path, start, name, chrIdx, m');
      hide Find, Walkable, FirstMatch, Listing, ListsResized, AreDirs, IndexOf, IsDirectory, DirSlots, Within, AllFit,
        Resized, SameListingBut;
      if m.Some? && chrIdx != |path| && IsDirectory(m.value.1.attr) && m.value.1.cluster in dirs {
        FindResized(v, dirs, v', p, idx, size, path[chrIdx + 1..], m.value.1.cluster);
      }
    }
  }

  /** So do volumes all of whose directories are known. */
  lemma ClosedResized(v: Volume, dirs: map<nat, seq<nat>>, v': Volume, p: nat, idx: nat, size: u32)
    requires ListsResized(v, dirs, v', p, idx, size) && AreDirs(v, dirs) && AreDirs(v', dirs) && Closed(v, dirs)
    ensures Closed(v', dirs)
  {
    hide Listing, AreDirs;
    forall d | d in dirs
      ensures LeadsInto(v', dirs, d)
    {
      assert LeadsInto(v, dirs, d) && SameListingBut(v, dirs[d], v', d == p, idx, size);
      var before, after := Listing(v, dirs[d]), Listing(v', dirs[d]);
      forall i | 0 <= i < |after|
        ensures StaysIn(dirs, after[i].1)
      {
        assert StaysIn(dirs, before[i].1);
      }
    }
  }

  // ----- a file that is written to -----

  /** The chain is apart from every directory. */
  ghost predicate ApartFrom(cs: seq<nat>, dirs: map<nat, seq<nat>>)
  {
    forall d :: d in dirs ==> Disjoint(cs, dirs[d])
  }

  lemma DirCarries(v: Volume, v': Volume, d: nat, chain: seq<nat>)
    requires IsDir(v, d, chain) && IsChain(v', chain) && |v'.data| == |v.data| && Within(chain, |v.data|)
    requires DirSlots(v', chain) == DirSlots(v, chain)
    ensures IsDir(v', d, chain) && Listing(v', chain) == Listing(v, chain)
  {
  }

  lemma ResizedSame(v: Volume, dir: seq<nat>, idx: nat, e: Entry)
    requires Stands(v, dir, idx, e) && AllFit(DirSlots(v, dir))
    ensures Resized(Listing(v, dir), idx, e.size) == Listing(v, dir)
  {
    hide Scan;
    var l := Listing(v, dir);
    forall i | 0 <= i < |l|
      ensures l[i].0 == idx ==> l[i].1.size == e.size
    {
      ScanIndices(DirSlots(v, dir), ScanState(Zeros(LFN_BUFFER), false), 0, l[i]);
    }
  }

  lemma DirChainOf(v: Volume, dirs: map<nat, seq<nat>>, d: nat)
    requires AreDirs(v, dirs) && d in dirs
    ensures WellFormed(v) && IsDir(v, d, dirs[d]) && IsChain(v, dirs[d]) && Within(dirs[d], |v.data|)
    ensures AllFit(DirSlots(v, dirs[d])) && d != BAD_CLUSTER
  {
    assert IsDir(v, d, dirs[d]) && IsCluster(v, dirs[d][0]);
  }

  /** The size the directory holds after a write: the new one, if some alias is left for the name. */
  ghost function SizeOnDisk(v: Volume, dir: seq<nat>, e: Entry, size: nat): (r: u32)
    requires Within(dir, |v.data|) && |Base(e.name)| <= 11
  {
    if e.size as nat < size < 0x1_0000_0000 && AliasFor(DirSlots(v, dir), e.name).Some? then size else e.size
  }

  lemma StandsIn(v: Volume, w: Volume, dir: seq<nat>, idx: nat, e: Entry)
    requires Stands(v, dir, idx, e)
    ensures |Base(e.name)| <= 11 && Within(dir, |v.data|)
    ensures Within(dir, |w.data|) && DirSlots(w, dir) == DirSlots(v, dir) ==> Stands(w, dir, idx, e)
  {
    hide DirSlots, Updatable, Base;
    UpdatableBase(e.name);
  }

  lemma UpdatedListing(v: Volume, p: nat, dir: seq<nat>, e: Entry, idx: nat, end: nat, mid: Volume)
    requires WellFormed(v) && IsDir(v, p, dir) && IsChain(v, dir) && Stands(v, dir, idx, e) && |Base(e.name)| <= 11
    requires end < 0x1_0000_0000 && Within(dir, |v.data|)
    requires EntryUpdated(v, dir, Image(e.name, e.attr, e.cluster, e.size), idx, end, mid)
    ensures WellFormed(mid) && IsDir(mid, p, dir) && Within(dir, |mid.data|) && IsChain(mid, dir)
    ensures Listing(mid, dir) ==
      if end > e.size as nat && AliasFor(DirSlots(v, dir), e.name).Some? then Resized(Listing(v, dir), idx, end)
      else Listing(v, dir)
  {
    hide Overwritten, AliasFor, Listing, DirSlots, WellFormed, Resized, Stands, Base, IsChain;
    if end > e.size as nat {
      var ok :| Overwritten(v, dir, Image(e.name, e.attr, e.cluster, end), idx, mid, ok);
      OverwriteListing(v, p, dir, e, idx, end, mid, ok);
    }
  }

  lemma StoredKeeps(mid: Volume, v': Volume, cs: seq<nat>, offset: nat, data: seq<byte>, p: nat, dir: seq<nat>)
    requires WellFormed(mid) && IsDir(mid, p, dir) && IsChain(mid, dir) && Within(dir, |mid.data|) && Disjoint(cs, dir)
    requires Stored(mid, v', cs, offset, data)
    ensures Within(dir, |v'.data|) && IsDir(v', p, dir) && Listing(v', dir) == Listing(mid, dir)
  {
    hide Rewritten, Load, Splice, IsDir, Disjoint, Within, WellFormed, IsChain, Listing;
    RewriteKeeps(mid, v', cs, Splice(Load(mid, cs), offset, data), dir);
    DirCarries(mid, v', p, dir);
  }

  lemma OwnListing(v: Volume, v': Volume, p: nat, dir: seq<nat>, e: Entry, idx: nat, size': nat)
    requires IsDir(v, p, dir) && IsDir(v', p, dir) && Stands(v, dir, idx, e)
    requires |Base(e.name)| <= 11 && Within(dir, |v.data|) && Within(dir, |v'.data|) && size' < 0x1_0000_0000
    requires Listing(v', dir) ==
      if size' > e.size as nat && AliasFor(DirSlots(v, dir), e.name).Some? then Resized(Listing(v, dir), idx, size')
      else Listing(v, dir)
    ensures SameListingBut(v, dir, v', true, idx, SizeOnDisk(v, dir, e, size'))
  {
    hide AliasFor, Listing, DirSlots, Resized, Stands, Base, CleanDir, AllFit, Within, IsChain;
    ResizedSame(v, dir, idx, e);
  }

  lemma OwnDirAfterWrite(v: Volume, p: nat, dir: seq<nat>, idx: nat, e: Entry, cs: seq<nat>, offset: nat,
                         data: seq<byte>, mid: Volume, v': Volume, n: nat, size': nat)
    requires WellFormed(v) && IsDir(v, p, dir) && IsChain(v, dir) && Disjoint(cs, dir) && Stands(v, dir, idx, e)
    requires IsFile(v, cs, e.size) && offset <= e.size && offset + |data| < 0x1_0000_0000
    requires FileWritten(v, cs, dir, Image(e.name, e.attr, e.cluster, e.size), idx, offset, data, mid, v', n, size')
    ensures Within(dir, |v.data|) && AllFit(DirSlots(v, dir)) && IsDir(v', p, dir)
    ensures SameListingBut(v, dir, v', true, idx, SizeOnDisk(v, dir, e, size'))
  {
    hide *;
    var im, end := Image(e.name, e.attr, e.cluster, e.size), offset + |data|;
    FileIs(v, cs, e.size);
    var g := Extension(v, cs, e.size, end);
    ExtensionFacts(v, cs, e.size, end);
    ExtensionKeeps(v, cs, e.size, end, dir);
    StandsIn(v, g.vol, dir, idx, e);
    WrittenParts(v, cs, dir, im, idx, offset, data, mid, v', n, size');
    DirCarries(v, g.vol, p, dir);
    if g.ok {
      UpdatedListing(g.vol, p, dir, e, idx, end, mid);
      StoredKeeps(mid, v', cs + g.added, offset, data, p, dir);
      MaxIs(e.size, end);
    }
    DirFits(v, p, dir);
    OwnListing(v, v', p, dir, e, idx, size');
  }

  lemma MaxIs(a: nat, b: nat)
    ensures Max(a, b) == if b > a then b else a
  {
  }

  /** After a write the directories are directories still and list what they listed, but for the size of the
      file's entry, which is the file's new size if some alias is left for its name. */
  lemma WriteKeepsListings(v: Volume, dirs: map<nat, seq<nat>>, p: nat, idx: nat, e: Entry, cs: seq<nat>, offset: nat,
                           data: seq<byte>, mid: Volume, v': Volume, n: nat, size': nat)
    requires AreDirs(v, dirs) && Apart(dirs) && ApartFrom(cs, dirs) && p in dirs && Stands(v, dirs[p], idx, e)
    requires IsFile(v, cs, e.size) && IsChain(v, dirs[p]) && Within(dirs[p], |v.data|) && |Base(e.name)| <= 11
    requires offset <= e.size && offset + |data| < 0x1_0000_0000
    requires FileWritten(v, cs, dirs[p], Image(e.name, e.attr, e.cluster, e.size), idx, offset, data, mid, v', n, size')
    ensures ListsResized(v, dirs, v', p, idx, SizeOnDisk(v, dirs[p], e, size'))
  {
    hide *;
    var im := Image(e.name, e.attr, e.cluster, e.size);
    var size := SizeOnDisk(v, dirs[p], e, size');
    DirChainOf(v, dirs, p);
    DisjointHere(cs, dirs, p, p);
    WriteKeepsOthers(v, cs, dirs[p], im, idx, offset, data, mid, v', n, size', dirs[p]);
    forall d | d in dirs
      ensures IsDir(v', d, dirs[d]) && SameListingBut(v, dirs[d], v', d == p, idx, size)
    {
      DirChainOf(v, dirs, d);
      DisjointHere(cs, dirs, p, d);
      if d == p {
        OwnDirAfterWrite(v, p, dirs[p], idx, e, cs, offset, data, mid, v', n, size');
      } else {
        WriteKeepsOthers(v, cs, dirs[p], im, idx, offset, data, mid, v', n, size', dirs[d]);
        DirCarries(v, v', d, dirs[d]);
        OtherListing(v, v', d, dirs[d], idx, size);
      }
    }
    ListsFrom(v, dirs, v', p, idx, size);
  }

  lemma DisjointHere(cs: seq<nat>, dirs: map<nat, seq<nat>>, p: nat, d: nat)
    requires Apart(dirs) && ApartFrom(cs, dirs) && p in dirs && d in dirs
    ensures Disjoint(cs, dirs[d]) && (d != p ==> Disjoint(dirs[p], dirs[d]))
  {
    hide Disjoint;
  }

  lemma OtherListing(v: Volume, v': Volume, d: nat, chain: seq<nat>, idx: nat, size: u32)
    requires IsDir(v, d, chain) && IsDir(v', d, chain) && Within(chain, |v.data|) && Within(chain, |v'.data|)
    requires Listing(v', chain) == Listing(v, chain)
    ensures SameListingBut(v, chain, v', false, idx, size)
  {
  }

  lemma ListsFrom(v: Volume, dirs: map<nat, seq<nat>>, v': Volume, p: nat, idx: nat, size: u32)
    requires AreDirs(v, dirs) && WellFormed(v')
    requires forall d :: d in dirs ==> IsDir(v', d, dirs[d]) && SameListingBut(v, dirs[d], v', d == p, idx, size)
    ensures ListsResized(v, dirs, v', p, idx, size)
  {
    hide IsDir, SameListingBut, WellFormed;
  }

  lemma ListsIs(v: Volume, dirs: map<nat, seq<nat>>, v': Volume, p: nat, idx: nat, size: u32)
    requires ListsResized(v, dirs, v', p, idx, size)
    ensures AreDirs(v', dirs)
  {
    hide AreDirs, SameListingBut;
  }

  /** What lookup finds stands in the directory it says. */
  lemma {:induction false} FoundStands(v: Volume, dirs: map<nat, seq<nat>>, path: seq<byte>, start: nat, f: Found)
    requires AreDirs(v, dirs) && start in dirs && Find(v, dirs, path, start) == Some(f)
    requires f.parentCluster in dirs && Updatable(f.entry.name)
    ensures Stands(v, dirs[f.parentCluster], f.entryIdx, f.entry)
    decreases |path|
  {
    hide *;
    var name := Unslashed(path);
    FindRoot(v, dirs, path, start);
    if name == [] {
      RootIsNowhere(v, dirs, start);
    } else {
      var chrIdx := IndexOf(name, SLASH);
      DirIsThere(v, dirs, start);
      var m := FirstMatch(Listing(v, dirs[start]), name[..chrIdx]);
      FindStep(v, dirs, path, start, name, chrIdx, m);
      if chrIdx == |path| {
        ListedIsLive(v, dirs[start], name[..chrIdx], m.value);
        StandsFrom(v, dirs[start], m.value.0, m.value.1);
      } else {
        FoundStands(v, dirs, path[chrIdx + 1..], m.value.1.cluster, f);
      }
    }
  }

  lemma RootIsNowhere(v: Volume, dirs: map<nat, seq<nat>>, start: nat)
    requires AreDirs(v, dirs) && start < ENDOFCHAIN
    ensures Root(start).parentCluster !in dirs
  {
    if BAD_CLUSTER in dirs { DirChainOf(v, dirs, BAD_CLUSTER); }
  }

  lemma StandsFrom(v: Volume, dir: seq<nat>, idx: nat, e: Entry)
    requires Within(dir, |v.data|) && idx < |DirSlots(v, dir)| && Updatable(e.name)
    requires var s := DirSlots(v, dir)[idx];
      IsLive(s) && e.cluster == SlotCluster(s) && e.attr == s[11] && e.size == SlotSize(s)
    ensures Stands(v, dir, idx, e)
  {
    hide DirSlots, Updatable, Within;
  }

  lemma UpdatableBase(name: seq<byte>)
    requires Updatable(name)
    ensures |Base(name)| <= 11
  {
  }

  /** Write to a file and look its path up: the entry found is the same, with the file's size if some alias is
      left for the name and with its old size if none is; every other path leads to an entry as it was. */
  lemma WriteThenFind(v: Volume, dirs: map<nat, seq<nat>>, path: seq<byte>, root: nat, f: Found, cs: seq<nat>,
                      offset: nat, data: seq<byte>, mid: Volume, v': Volume, n: nat, size': nat, other: seq<byte>)
    requires AreDirs(v, dirs) && Apart(dirs) && ApartFrom(cs, dirs) && root in dirs && f.parentCluster in dirs
    requires Find(v, dirs, path, root) == Some(f) && Updatable(f.entry.name) && |Base(f.entry.name)| <= 11
    requires IsFile(v, cs, f.entry.size) && IsChain(v, dirs[f.parentCluster]) && Within(dirs[f.parentCluster], |v.data|)
    requires offset <= f.entry.size && offset + |data| < 0x1_0000_0000
    requires FileWritten(v, cs, dirs[f.parentCluster], Image(f.entry.name, f.entry.attr, f.entry.cluster, f.entry.size),
                         f.entryIdx, offset, data, mid, v', n, size')
    ensures AreDirs(v', dirs) && (Closed(v, dirs) ==> Closed(v', dirs))
    ensures var size := SizeOnDisk(v, dirs[f.parentCluster], f.entry, size');
      && Find(v', dirs, path, root) == Some(f.(entry := f.entry.(size := size)))
      && Find(v', dirs, other, root) == ResizedFound(Find(v, dirs, other, root), f.parentCluster, f.entryIdx, size)
  {
    hide *;
    var p, idx, e := f.parentCluster, f.entryIdx, f.entry;
    var size := SizeOnDisk(v, dirs[p], e, size');
    FoundStands(v, dirs, path, root, f);
    WriteKeepsListings(v, dirs, p, idx, e, cs, offset, data, mid, v', n, size');
    ListsIs(v, dirs, v', p, idx, size);
    DirChainOf(v, dirs, p);
    FindResized(v, dirs, v', p, idx, size, path, root);
    FindResized(v, dirs, v', p, idx, size, other, root);
    ResizedHere(f, size);
    if Closed(v, dirs) { ClosedResized(v, dirs, v', p, idx, size); }
  }

  lemma ResizedHere(f: Found, size: u32)
    ensures ResizedFound(Some(f), f.parentCluster, f.entryIdx, size) == Some(f.(entry := f.entry.(size := size)))
  {
  }

  lemma ContentPrefix(v: Volume, cs: seq<nat>, size: nat, s: nat)
    requires IsFile(v, cs, size) && |Content(v, cs, size)| == size && s <= size
    ensures Within(cs, |v.data|) ==> s <= |Load(v, cs)| && Content(v, cs, s) == Content(v, cs, size)[..s]
  {
    hide Load;
    if Within(cs, |v.data|) { FileFits(v, cs, size); }
  }

  lemma ChainWithin(v: Volume, cs: seq<nat>)
    requires WellFormed(v) && IsChain(v, cs)
    ensures Within(cs, |v.data|) && cs != []
  {
    assert forall i :: 0 <= i < |cs| ==> IsCluster(v, cs[i]);
  }

  /** What is left of the size on disk: all of it if an alias is left or the file did not grow. */
  lemma SizeOnDiskIs(v: Volume, dir: seq<nat>, e: Entry, size: nat)
    requires Within(dir, |v.data|) && |Base(e.name)| <= 11 && e.size as nat <= size < 0x1_0000_0000
    ensures var s := SizeOnDisk(v, dir, e, size);
      && s as nat <= size
      && (s as nat == size <==> size == e.size as nat || AliasFor(DirSlots(v, dir), e.name).Some?)
      && (s as nat != size ==> s == e.size)
  {
    hide DirSlots, AliasFor, Base;
  }

  /** Write to a file, open its path again and read: the chain and the size found there hold the old content with
      the data spliced in, cut off at the old size if the file grew and no alias is left for its name. */
  lemma WriteThenOpen(v: Volume, dirs: map<nat, seq<nat>>, path: seq<byte>, root: nat, f: Found, cs: seq<nat>,
                      offset: nat, data: seq<byte>, mid: Volume, v': Volume, n: nat, size': nat)
    returns (cs': seq<nat>, again: Found, whole: seq<byte>)
    requires AreDirs(v, dirs) && Apart(dirs) && ApartFrom(cs, dirs) && root in dirs && f.parentCluster in dirs
    requires Find(v, dirs, path, root) == Some(f) && Updatable(f.entry.name) && |Base(f.entry.name)| <= 11
    requires IsFile(v, cs, f.entry.size) && cs[0] == f.entry.cluster as nat
    requires IsChain(v, dirs[f.parentCluster]) && Within(dirs[f.parentCluster], |v.data|)
    requires offset <= f.entry.size && offset + |data| < 0x1_0000_0000
    requires FileWritten(v, cs, dirs[f.parentCluster], Image(f.entry.name, f.entry.attr, f.entry.cluster, f.entry.size),
                         f.entryIdx, offset, data, mid, v', n, size')
    requires Extension(v, cs, f.entry.size, offset + |data|).ok
    ensures |Content(v, cs, f.entry.size)| == f.entry.size as int
    ensures whole == Splice(Content(v, cs, f.entry.size), offset, data)
    ensures AreDirs(v', dirs) && Find(v', dirs, path, root) == Some(again)
    ensures again.entry.name == f.entry.name && again.entry.cluster == f.entry.cluster
    ensures IsChain(v', cs') && cs'[0] == again.entry.cluster as nat && Within(cs', |v'.data|)
    ensures again.entry.size as nat <= |Load(v', cs')|
    ensures again.entry.size as nat <= |whole| && Content(v', cs', again.entry.size) == whole[..again.entry.size]
    ensures again.entry.size as nat == |whole| || again.entry.size == f.entry.size
    ensures again.entry.size as nat == |whole| <==>
      |whole| == f.entry.size as nat || AliasFor(DirSlots(v, dirs[f.parentCluster]), f.entry.name).Some?
  {
    hide *;
    var p, e, end := f.parentCluster, f.entry, offset + |data|;
    FileIs(v, cs, e.size);
    FileFits(v, cs, e.size);
    var im := Image(e.name, e.attr, e.cluster, e.size);
    var added := Extension(v, cs, e.size, end).added;
    cs', whole := cs + added, Splice(Content(v, cs, e.size), offset, data);
    again := f.(entry := e.(size := SizeOnDisk(v, dirs[p], e, size')));
    WriteThenFind(v, dirs, path, root, f, cs, offset, data, mid, v', n, size', path);
    ApartFromIs(cs, dirs, p);
    WriteIsSplice(v, cs, dirs[p], im, f.entryIdx, offset, data, mid, v', n, size');
    MaxIs(e.size, end);
    SizeOnDiskIs(v, dirs[p], e, size');
    ChainWithin(v', cs');
    FileStarts(v, cs, e.size, cs', added);
    ContentPrefix(v', cs', size', again.entry.size);
  }

  lemma FileStarts(v: Volume, cs: seq<nat>, size: nat, cs': seq<nat>, added: seq<nat>)
    requires IsFile(v, cs, size) && cs' == cs + added
    ensures cs != [] && cs' != [] && cs'[0] == cs[0]
  {
  }

  // ----- a file that is truncated -----

  lemma ResetKeepsDir(v: Volume, cs: seq<nat>, dir: seq<nat>)
    requires WellFormed(v) && IsChain(v, cs) && IsChain(v, dir) && Disjoint(cs, dir)
    ensures var v' := Reset(v, cs);
      IsChain(v', dir) && Within(dir, |v.data|) && Within(dir, |v'.data|) && DirSlots(v', dir) == DirSlots(v, dir)
  {
    ResetEffect(v, cs);
    hide Reset, DirSlots;
    assert forall i :: 0 <= i < |dir| ==> dir[i] in dir && IsCluster(v, dir[i]);
    ChainFrame(v, Reset(v, cs), dir);
    DirFrame(v, Reset(v, cs), dir);
  }

  lemma ResetLists(v: Volume, dirs: map<nat, seq<nat>>, cs: seq<nat>)
    requires AreDirs(v, dirs) && WellFormed(v) && IsChain(v, cs) && ApartFrom(cs, dirs)
    ensures ListsResized(v, dirs, Reset(v, cs), ENDOFCHAIN, 0, 0)
  {
    hide *;
    ResetReady(v, cs);
    var v' := Reset(v, cs);
    ResetEffect(v, cs);
    forall d | d in dirs
      ensures IsDir(v', d, dirs[d]) && SameListingBut(v, dirs[d], v', d == ENDOFCHAIN, 0, 0)
    {
      DirChainOf(v, dirs, d);
      ApartFromIs(cs, dirs, d);
      ResetKeepsDir(v, cs, dirs[d]);
      DirCarries(v, v', d, dirs[d]);
      OtherListing(v, v', d, dirs[d], 0, 0);
    }
    ListsFrom(v, dirs, v', ENDOFCHAIN, 0, 0);
  }

  lemma ResetReady(v: Volume, cs: seq<nat>)
    requires WellFormed(v) && IsChain(v, cs)
    ensures cs != [] && Within(cs, |v.fat|) && ENDOFCHAIN >= 0
  {
  }

  lemma ApartFromIs(cs: seq<nat>, dirs: map<nat, seq<nat>>, d: nat)
    requires ApartFrom(cs, dirs) && d in dirs
    ensures Disjoint(cs, dirs[d])
  {
    hide Disjoint;
  }

  lemma {:induction false} FoundParent(v: Volume, dirs: map<nat, seq<nat>>, path: seq<byte>, start: nat)
    requires AreDirs(v, dirs) && start in dirs && Find(v, dirs, path, start).Some?
    ensures var p := Find(v, dirs, path, start).value.parentCluster; p in dirs || p == BAD_CLUSTER
    decreases |path|
  {
    hide *;
    var name := Unslashed(path);
    FindRoot(v, dirs, path, start);
    if name == [] {
      RootParent(start);
    } else {
      var chrIdx := IndexOf(name, SLASH);
      DirIsThere(v, dirs, start);
      var m := FirstMatch(Listing(v, dirs[start]), name[..chrIdx]);
      FindStep(v, dirs, path, start, name, chrIdx, m);
      if chrIdx != |path| { FoundParent(v, dirs, path[chrIdx + 1..], m.value.1.cluster); }
    }
  }

  lemma RootParent(start: nat)
    requires start < ENDOFCHAIN
    ensures Root(start).parentCluster == BAD_CLUSTER
  {
  }

  /** Resetting a file's chain changes nothing that lookup finds. */
  lemma ResetKeepsPaths(v: Volume, dirs: map<nat, seq<nat>>, cs: seq<nat>, path: seq<byte>, root: nat)
    requires AreDirs(v, dirs) && root in dirs && WellFormed(v) && IsChain(v, cs) && ApartFrom(cs, dirs)
    ensures AreDirs(Reset(v, cs), dirs) && Find(Reset(v, cs), dirs, path, root) == Find(v, dirs, path, root)
  {
    hide *;
    ResetReady(v, cs);
    ResetLists(v, dirs, cs);
    ListsIs(v, dirs, Reset(v, cs), ENDOFCHAIN, 0, 0);
    ClustersOnly(v, dirs);
    FindResized(v, dirs, Reset(v, cs), ENDOFCHAIN, 0, 0, path, root);
    var f := Find(v, dirs, path, root);
    if f.Some? {
      FoundParent(v, dirs, path, root);
      NotResized(f.value);
    } else {
      NoneResized();
    }
  }

  lemma ClustersOnly(v: Volume, dirs: map<nat, seq<nat>>)
    requires AreDirs(v, dirs)
    ensures ENDOFCHAIN !in dirs && ENDOFCHAIN != BAD_CLUSTER
  {
    forall d | d in dirs
      ensures d != ENDOFCHAIN
    {
      assert IsDir(v, d, dirs[d]);
    }
  }

  lemma NotResized(f: Found)
    ensures f.parentCluster != ENDOFCHAIN ==> ResizedFound(Some(f), ENDOFCHAIN, 0, 0) == Some(f)
  {
  }

  lemma NoneResized()
    ensures ResizedFound(None, ENDOFCHAIN, 0, 0) == None
  {
  }

  lemma OneClusterFile(v: Volume, c: nat, size: nat)
    requires WellFormed(v) && IsChain(v, [c])
    ensures IsFile(v, [c], size) <==> size <= v.bpc
  {
    if size == 0 {
    } else if size <= v.bpc {
      DivMod(size + v.bpc - 1, v.bpc, 1, size - 1);
    } else {
      RoundUp(size, v.bpc, (size + v.bpc - 1) / v.bpc);
    }
  }
}
