/** `deleteFAT32Entry`: the slot is marked in place, and the file's chain is reset, which keeps
    its first cluster. */
module Fat32Remove {
  import opened Wrappers
  import opened Bytes
  import opened Fat32Volume
  import opened Fat32Mount
  import opened Fat32Names
  import opened Fat32Scan
  import opened Fat32Entries
  import opened Fat32Dir
  import opened Fat32Write
  import opened Fat32AddEntry
  import opened Fat32Path
  import opened Fat32WriteFile
  import opened Fat32Delete
  import opened Fat32Update

  /** The entry as it is written back: its first character is the deletion mark. */
  function Marked(e: Entry): Image
    requires e.name != []
  {
    Image([DELETED] + e.name[1..], e.attr, e.cluster, e.size)
  }

  /** Lookup stays in known directories, and the path, if it leads anywhere, leads to an entry of a directory,
      whose chain `cs` is apart from that directory's; the marked name fits the alias buffer. */
  ghost predicate CanDelete(v: Volume, dirs: map<nat, seq<nat>>, path: seq<byte>, root: nat, cs: seq<nat>)
    requires AreDirs(v, dirs) && root in dirs
  {
    var f := Find(v, dirs, path, root);
    Walkable(v, dirs, path, root) && (f.Some? ==> Deletable(v, dirs, f.value, cs))
  }

  ghost predicate Deletable(v: Volume, dirs: map<nat, seq<nat>>, f: Found, cs: seq<nat>) {
    && f.entry.name != [] && WellFormed(v)
    && f.parentCluster in dirs && IsDir(v, f.parentCluster, dirs[f.parentCluster])
    && |Base(Marked(f.entry).name)| <= 11
    && f.entryIdx < |DirSlots(v, dirs[f.parentCluster])| && f.entryIdx < MAX_SLOTS
    && IsChain(v, cs) && cs[0] == f.entry.cluster && Disjoint(cs, dirs[f.parentCluster])
  }

  /** The volume `mid` has the slot marked, and `v'` the chain reset as well. */
  ghost predicate DeletedVia(v: Volume, dirs: map<nat, seq<nat>>, f: Found, cs: seq<nat>, mid: Volume, v': Volume,
                             ok: bool)
    requires Deletable(v, dirs, f, cs)
  {
    && Overwritten(v, dirs[f.parentCluster], Marked(f.entry), f.entryIdx, mid, ok)
    && if ok then WellFormed(mid) && IsChain(mid, cs) && v' == Reset(mid, cs) else v' == mid
  }

  method DeleteEntry(mount: FAT32Mount, path: seq<byte>, ghost dirs: map<nat, seq<nat>>, ghost cs: seq<nat>)
    returns (ok: bool, ghost mid: Volume)
    requires mount.Valid() && AreDirs(mount.Vol(), dirs) && mount.rootCluster in dirs
    requires CanDelete(mount.Vol(), dirs, path, mount.rootCluster, cs)
    modifies mount.device
    ensures mount.Valid()
    ensures var v, f := old(mount.Vol()), Find(old(mount.Vol()), dirs, path, mount.rootCluster);
      if f.None? then !ok && mount.Vol() == v else DeletedVia(v, dirs, f.value, cs, mid, mount.Vol(), ok)
  {
    hide *;
    ghost var v := mount.Vol();
    mid := v;
    CanDeleteIs(v, dirs, path, mount.rootCluster, cs);
    var found := FindEntry(mount, path, mount.rootCluster, dirs);
    if found.None? { return false, v; }
    var f := found.value;
    DeletableFacts(v, dirs, f, cs);
    ghost var dir := dirs[f.parentCluster];
    MarkedIs(f.entry);
    var e := f.entry;
    var entry := new FAT32Entry(f.parentCluster, [0xE5] + e.name[1..], e.cluster, e.attr, e.size);
    entry.parentEntryIdx := f.entryIdx;
    ok := WriteEntry(mount, entry, true, dir);
    mid := mount.Vol();
    UpdateKeeps(v, dir, Marked(f.entry), f.entryIdx, mid, ok, cs);
    if !ok {
      DeletedViaIs(v, dirs, f, cs, mid, mid, false);
      return;
    }
    ok := mount.ResetClusterChain(f.entry.cluster, cs);
    DeletedViaIs(v, dirs, f, cs, mid, mount.Vol(), true);
  }

  lemma CanDeleteIs(v: Volume, dirs: map<nat, seq<nat>>, path: seq<byte>, root: nat, cs: seq<nat>)
    requires AreDirs(v, dirs) && root in dirs && CanDelete(v, dirs, path, root, cs)
    ensures Walkable(v, dirs, path, root)
    ensures var f := Find(v, dirs, path, root); f.Some? ==> Deletable(v, dirs, f.value, cs)
  {
    hide AreDirs, Find, Walkable, Deletable;
  }

  lemma DeletableFacts(v: Volume, dirs: map<nat, seq<nat>>, f: Found, cs: seq<nat>)
    requires Deletable(v, dirs, f, cs)
    ensures f.entry.name != [] && f.parentCluster in dirs && WellFormed(v)
    ensures IsChain(v, dirs[f.parentCluster]) && dirs[f.parentCluster][0] == f.parentCluster
    ensures Within(dirs[f.parentCluster], |v.data|)
    ensures f.entryIdx < |DirSlots(v, dirs[f.parentCluster])| && f.entryIdx < MAX_SLOTS
    ensures |Base(Marked(f.entry).name)| <= 11
    ensures IsChain(v, cs) && cs != [] && cs[0] == f.entry.cluster && Disjoint(cs, dirs[f.parentCluster])
  {
    hide DirSlots, CleanDir, Base;
  }

  lemma MarkedIs(e: Entry)
    requires e.name != []
    ensures DELETED == 0xE5 && Marked(e) == Image([0xE5] + e.name[1..], e.attr, e.cluster, e.size)
    ensures Marked(e).name != [] && Marked(e).name[0] == DELETED && Marked(e).attr == e.attr
  {
  }

  lemma DeletedViaIs(v: Volume, dirs: map<nat, seq<nat>>, f: Found, cs: seq<nat>, mid: Volume, v': Volume, ok: bool)
    requires Deletable(v, dirs, f, cs) && f.parentCluster in dirs && f.entry.name != []
    requires WellFormed(v) && IsChain(v, dirs[f.parentCluster]) && |Base(Marked(f.entry).name)| <= 11
    requires Overwritten(v, dirs[f.parentCluster], Marked(f.entry), f.entryIdx, mid, ok)
    requires WellFormed(mid) && IsChain(mid, cs) && v' == if ok then Reset(mid, cs) else mid
    ensures DeletedVia(v, dirs, f, cs, mid, v', ok)
  {
    hide Deletable, Overwritten, IsChain, WellFormed, Base, Reset;
  }

  /** A successful deletion marks exactly the entry's 8.3 slot and frees the chain but for its first
      cluster, which nothing refers to any more. */
  lemma DeleteKeepsFirstCluster(v: Volume, dirs: map<nat, seq<nat>>, f: Found, cs: seq<nat>, mid: Volume, v': Volume)
    requires Deletable(v, dirs, f, cs) && DeletedVia(v, dirs, f, cs, mid, v', true) && f.entry.attr != LONG_NAME
    ensures FreeSet(v') == FreeSet(v) + (set c | c in cs[1..]) && cs[0] !in FreeSet(v')
    ensures |FreeSet(v')| + 1 == |FreeSet(v)| + |cs|
    ensures var dir := dirs[f.parentCluster];
      && Within(dir, |v.data|) && Within(dir, |v'.data|) && |DirSlots(v', dir)| == |DirSlots(v, dir)|
      && IsChain(v', dir)
      && f.entryIdx < |DirSlots(v, dir)| && IsFree(DirSlots(v', dir)[f.entryIdx])
      && DirSlots(v', dir) == DirSlots(v, dir)[f.entryIdx := DirSlots(v', dir)[f.entryIdx]]
  {
    hide *;
    DeletableFacts(v, dirs, f, cs);
    MarkedIs(f.entry);
    DeletedViaFacts(v, dirs, f, cs, mid, v');
    var dir := dirs[f.parentCluster];
    UpdateKeeps(v, dir, Marked(f.entry), f.entryIdx, mid, true, cs);
    UpdateKeeps(v, dir, Marked(f.entry), f.entryIdx, mid, true, dir);
    MarkedSlots(v, dir, Marked(f.entry), f.entryIdx, mid);
    ResetFrees(mid, cs);
    FirstStays(mid, cs);
    SameTable(v, mid);
    ResetKeepsDir(mid, cs, dir);
  }

  lemma DeletedViaFacts(v: Volume, dirs: map<nat, seq<nat>>, f: Found, cs: seq<nat>, mid: Volume, v': Volume)
    requires Deletable(v, dirs, f, cs) && DeletedVia(v, dirs, f, cs, mid, v', true)
    ensures f.parentCluster in dirs && f.entry.name != [] && WellFormed(v) && IsChain(v, dirs[f.parentCluster])
    ensures |Base(Marked(f.entry).name)| <= 11
    ensures Overwritten(v, dirs[f.parentCluster], Marked(f.entry), f.entryIdx, mid, true)
    ensures WellFormed(mid) && IsChain(mid, cs) && v' == Reset(mid, cs)
  {
    hide Overwritten, WellFormed, Base, Reset, CleanDir, DirSlots;
  }

  lemma MarkedSlots(v: Volume, dir: seq<nat>, im: Image, idx: nat, mid: Volume)
    requires WellFormed(v) && IsChain(v, dir) && |Base(im.name)| <= 11 && Overwritten(v, dir, im, idx, mid, true)
    requires im.name != [] && im.name[0] == DELETED && im.attr != LONG_NAME
    ensures Within(dir, |v.data|) && Within(dir, |mid.data|) && idx < |DirSlots(v, dir)|
    ensures |DirSlots(mid, dir)| == |DirSlots(v, dir)| && IsFree(DirSlots(mid, dir)[idx])
    ensures DirSlots(mid, dir) == DirSlots(v, dir)[idx := DirSlots(mid, dir)[idx]]
  {
    hide DirSlots, Written, IsChain, WellFormed, Base;
    DeletedSlot(DirSlots(v, dir), im, idx);
  }

  lemma FirstStays(v: Volume, cs: seq<nat>)
    requires WellFormed(v) && IsChain(v, cs)
    ensures cs != [] && cs[0] !in FreeSet(Reset(v, cs)) && |Reset(v, cs).data| == |v.data|
  {
    ResetEffect(v, cs);
    hide Reset;
    ChainIsInUse(Reset(v, cs), [cs[0]]);
    assert cs[0] in [cs[0]];
  }

  lemma SameTable(v: Volume, mid: Volume)
    requires WellFormed(v) && WellFormed(mid) && mid.fat == v.fat && |mid.data| == |v.data|
    ensures FreeSet(mid) == FreeSet(v)
  {
  }

  /** What the directory lists after a successful deletion. */
  lemma DeletedListing(v: Volume, dirs: map<nat, seq<nat>>, f: Found, cs: seq<nat>, mid: Volume, v': Volume,
                       pre: seq<Slot>, run: seq<Slot>)
    returns (before: seq<(nat, Entry)>, e: Entry, behind: seq<(nat, Entry)>)
    requires Deletable(v, dirs, f, cs) && DeletedVia(v, dirs, f, cs, mid, v', true) && f.entry.attr != LONG_NAME
    requires f.parentCluster in dirs && Within(dirs[f.parentCluster], |v.data|)
    requires EntryAt(DirSlots(v, dirs[f.parentCluster]), f.entryIdx, pre, run)
    ensures var dir := dirs[f.parentCluster]; var slots := DirSlots(v, dir);
      && f.entryIdx < |slots| && AllFit(slots) && Within(dir, |v'.data|) && AllFit(DirSlots(v', dir))
      && var post := slots[f.entryIdx + 1..];
         && AllFit(Behind(post)) && Listing(v, dir) == before + [(f.entryIdx, e)] + behind
         && Listing(v', dir) == before + (if AnyLast(run) then Renamed(behind, NameTaken(post, e.name)) else behind)
         && (Listing(v', dir) == before + behind <==> (AnyLast(run) ==> NextKeepsName(post, e.name)))
         && (CleanDir(DirSlots(v', dir)) <==> run == [])
  {
    hide *;
    DeletableFacts(v, dirs, f, cs);
    MarkedIs(f.entry);
    DeletedViaFacts(v, dirs, f, cs, mid, v');
    var dir, im := dirs[f.parentCluster], Marked(f.entry);
    OverwrittenSlots(v, dir, im, f.entryIdx, mid);
    UpdateKeeps(v, dir, im, f.entryIdx, mid, true, dir);
    ResetKeepsDir(mid, cs, dir);
    FreshIs();
    EntryAtIs(DirSlots(v, dir), f.entryIdx, pre, run);
    before, e, behind := OrphanedNameIsTakenOver(DirSlots(v, dir), im, f.entryIdx, pre, run, FRESH);
    ListingIs(v, dir);
    ListingIs(v', dir);
  }

  lemma OverwrittenSlots(v: Volume, dir: seq<nat>, im: Image, idx: nat, mid: Volume)
    requires WellFormed(v) && IsChain(v, dir) && |Base(im.name)| <= 11 && Overwritten(v, dir, im, idx, mid, true)
    ensures Within(dir, |v.data|) && Within(dir, |mid.data|) && idx < |DirSlots(v, dir)|
    ensures Written(DirSlots(v, dir), im, true, idx) == Some(DirSlots(mid, dir))
  {
    hide DirSlots, Written, IsChain, WellFormed, Base;
  }

  lemma ListingIs(v: Volume, dir: seq<nat>)
    requires Within(dir, |v.data|) && AllFit(DirSlots(v, dir))
    ensures |FRESH.buf| == LFN_BUFFER && Listing(v, dir) == Scan(DirSlots(v, dir), FRESH, 0)
  {
    hide Scan, DirSlots;
  }
}
