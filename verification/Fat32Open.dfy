/** `openFAT32File`: lookup or creation, and truncation. */
module Fat32Open {
  import opened Wrappers
  import opened Bytes
  import opened Fat32Volume
  import opened Fat32Mount
  import opened Fat32Entries
  import opened Fat32Dir
  import opened Fat32Write
  import opened Fat32AddEntry
  import opened Fat32Path
  import opened Fat32File
  import opened Fat32Claim
  import opened Fat32CreateEntry
  import opened Fat32Update

  const NEW_FILE := Info(0, ENDOFCHAIN, 0)

  /** The flags that matter here. */
  datatype Flags = Flags(create: bool, trunc: bool, append: bool)

  /** What creation or lookup needs, and that a file to be truncated is stored in chain `cs`. */
  ghost predicate CanOpen(v: Volume, dirs: map<nat, seq<nat>>, path: seq<byte>, flags: Flags, root: nat, cs: seq<nat>)
    requires AreDirs(v, dirs) && root in dirs
  {
    && (if flags.create then CanCreate(v, dirs, path, NEW_FILE, root) else Walkable(v, dirs, path, root))
    && var f := Find(v, dirs, path, root);
       f.Some? && flags.trunc && !IsDirectory(f.value.entry.attr) ==>
         IsChain(v, cs) && cs[0] == f.value.entry.cluster as nat
  }

  /** The entry of the path, found or created; `mid` is the volume then. */
  ghost predicate Located(v: Volume, dirs: map<nat, seq<nat>>, path: seq<byte>, create: bool, root: nat, mid: Volume,
                          m: Option<Made>)
    requires AreDirs(v, dirs) && root in dirs
  {
    if create then Created(v, dirs, path, NEW_FILE, root, mid, m)
    else
      mid == v &&
      match Find(v, dirs, path, root)
      case None => m == None
      case Some(f) => m == Some(AsMade(f))
  }

  /** The chain of the entry: `cs` for one that was there, its cluster for a new one. */
  ghost function ChainOf(v: Volume, dirs: map<nat, seq<nat>>, path: seq<byte>, root: nat, m: Made, cs: seq<nat>)
    : seq<nat>
    requires AreDirs(v, dirs) && root in dirs
  {
    if Find(v, dirs, path, root).Some? then cs else [m.image.cluster as nat]
  }

  /** What opening does: nothing more for directories, which are not opened; truncation resets the
      chain and empties the file in memory. */
  ghost predicate Opened(v: Volume, dirs: map<nat, seq<nat>>, path: seq<byte>, flags: Flags, root: nat, cs: seq<nat>,
                         mid: Volume, m: Option<Made>, v': Volume, r: Option<Made>)
    requires AreDirs(v, dirs) && root in dirs
  {
    && Located(v, dirs, path, flags.create, root, mid, m)
    && if m.None? || IsDirectory(m.value.image.attr) then r == None && v' == mid
       else if !flags.trunc then r == m && v' == mid
       else
         var chain := ChainOf(v, dirs, path, root, m.value, cs);
         && WellFormed(mid) && IsChain(mid, chain) && v' == Reset(mid, chain)
         && r == Some(m.value.(image := m.value.image.(size := 0)))
  }

  /** The chain is one in the volume at hand, also when the entry was just created. */
  lemma LocatedChain(v: Volume, dirs: map<nat, seq<nat>>, path: seq<byte>, flags: Flags, root: nat, cs: seq<nat>,
                     mid: Volume, m: Option<Made>)
    requires AreDirs(v, dirs) && root in dirs && CanOpen(v, dirs, path, flags, root, cs)
    requires Located(v, dirs, path, flags.create, root, mid, m) && m.Some? && !IsDirectory(m.value.image.attr)
    requires flags.trunc
    ensures var chain := ChainOf(v, dirs, path, root, m.value, cs);
      WellFormed(mid) && IsChain(mid, chain) && chain[0] == m.value.image.cluster as nat
  {
    if Find(v, dirs, path, root).None? {
      NewChain(v, dirs, path, root, mid, m.value);
    }
    hide Find, Walkable, IsChain, CanCreate, IsDirectory, Dirname, Basepath, Stored, FreeSet, FirstFree, Claim;
  }

  lemma NewChain(v: Volume, dirs: map<nat, seq<nat>>, path: seq<byte>, root: nat, mid: Volume, m: Made)
    requires AreDirs(v, dirs) && root in dirs && CanCreate(v, dirs, path, NEW_FILE, root)
    requires Find(v, dirs, path, root).None? && Created(v, dirs, path, NEW_FILE, root, mid, Some(m))
    ensures WellFormed(mid) && IsChain(mid, [m.image.cluster as nat])
  {
    var d := Find(v, dirs, Dirname(path), root);
    var p, c := d.value.entry.cluster as nat, FirstFree(v, 2);
    var im := m.image;
    TreeChain(v, dirs, p);
    FreeIsThere(v);
    hide Find, Walkable, AreDirs, Added, OneCluster, FirstFree, FreeSet, Claim, IsChain, WellFormed, DirSlots,
      NewIndex, Base, Dirname, Basepath;
    ClaimFacts(v, c);
    ClaimKeeps(v, c, dirs[p]);
    DisjointSym([c], dirs[p]);
    AddedFacts(Claim(v, c), dirs[p], im, mid);
    AddedKeeps(Claim(v, c), dirs[p], im, mid, [c]);
  }

  ghost function OpenedEntry(file: FILE?): Option<Made>
    reads file, if file == null then {} else {file.internal}
  {
    if file == null then None else ResultOf(file.internal)
  }

  method OpenFile(mount: FAT32Mount, relPath: seq<byte>, flags: Flags, ghost dirs: map<nat, seq<nat>>,
                  ghost cs: seq<nat>) returns (file: FILE?, ptr: nat, ghost mid: Volume, ghost m: Option<Made>)
    requires mount.Valid() && AreDirs(mount.Vol(), dirs) && mount.rootCluster in dirs
    requires CanOpen(mount.Vol(), dirs, relPath, flags, mount.rootCluster, cs)
    modifies mount.device
    ensures mount.Valid() && (file != null ==> fresh(file) && fresh(file.internal))
    ensures
      Opened(old(mount.Vol()), dirs, relPath, flags, mount.rootCluster, cs, mid, m, mount.Vol(), OpenedEntry(file))
    ensures file != null ==> file.size == file.internal.size as nat && ptr == if flags.append then file.size else 0
  {
    hide mount.Vol, mount.Valid, AreDirs, Find, Walkable, CanCreate, Created, Dirname, Basepath, IsChain, WellFormed,
      Reset, IsDirectory, DirSlots;
    ghost var v := mount.Vol();
    file, ptr := null, 0;
    var entry: FAT32Entry?;
    if flags.create {
      entry := CreateEntry(mount, relPath, NEW_FILE, dirs);
    } else {
      entry := LookUp(mount, relPath, dirs);
    }
    mid, m := mount.Vol(), ResultOf(entry);
    if entry == null { return; }
    if IsDirectory(entry.attr) { return; }
    if flags.trunc {
      LocatedChain(v, dirs, relPath, flags, mount.rootCluster, cs, mid, m);
      entry.size := 0;
      var ok := mount.ResetClusterChain(entry.cluster, ChainOf(v, dirs, relPath, mount.rootCluster, m.value, cs));
    }
    file := new FILE(entry);
    ptr := if flags.append then file.size else 0;
  }

  method LookUp(mount: FAT32Mount, path: seq<byte>, ghost dirs: map<nat, seq<nat>>) returns (entry: FAT32Entry?)
    requires mount.Valid() && AreDirs(mount.Vol(), dirs) && mount.rootCluster in dirs
    requires Walkable(mount.Vol(), dirs, path, mount.rootCluster)
    ensures entry != null ==> fresh(entry)
    ensures Located(mount.Vol(), dirs, path, false, mount.rootCluster, mount.Vol(), ResultOf(entry))
  {
    hide mount.Vol, mount.Valid, AreDirs, Find, Walkable;
    var found := FindEntry(mount, path, mount.rootCluster, dirs);
    if found.None? { return null; }
    var e := found.value.entry;
    entry := new FAT32Entry(found.value.parentCluster, e.name, e.cluster, e.attr, e.size);
    entry.parentEntryIdx := found.value.entryIdx;
  }

  /** An entry that is there is opened if and only if bit 4 of its attributes is clear, whatever the other bits are;
      nothing changes unless it is truncated, and then its size in memory only is 0. */
  lemma OpensExactlyFiles(v: Volume, dirs: map<nat, seq<nat>>, path: seq<byte>, flags: Flags, root: nat, cs: seq<nat>,
                          mid: Volume, m: Option<Made>, v': Volume, r: Option<Made>, hi: nat, lo: nat, bit: nat)
    requires AreDirs(v, dirs) && root in dirs && Find(v, dirs, path, root).Some?
    requires Opened(v, dirs, path, flags, root, cs, mid, m, v', r)
    requires hi < 8 && lo < 16 && bit < 2
    requires Find(v, dirs, path, root).value.entry.attr as int == 32 * hi + 16 * bit + lo
    ensures r.Some? <==> bit == 0
    ensures bit == 1 || !flags.trunc ==> v' == v
    ensures bit == 0 ==>
      var f := Find(v, dirs, path, root).value;
      r == Some(Made(f.parentCluster, f.entryIdx,
                     Image(f.entry.name, f.entry.attr, f.entry.cluster, if flags.trunc then 0 else f.entry.size)))
  {
    hide *;
    AttributeBits(Find(v, dirs, path, root).value.entry.attr, hi, lo, bit);
    OpenedThere(v, dirs, path, flags, root, cs, mid, m, v', r, Find(v, dirs, path, root).value);
  }

  lemma AttributeBits(attr: byte, hi: nat, lo: nat, bit: nat)
    requires hi < 8 && lo < 16 && bit < 2 && attr as int == 32 * hi + 16 * bit + lo
    ensures IsDirectory(attr) <==> bit == 1
  {
    DirectoryBit(hi, lo);
  }

  lemma OpenedThere(v: Volume, dirs: map<nat, seq<nat>>, path: seq<byte>, flags: Flags, root: nat, cs: seq<nat>,
                    mid: Volume, m: Option<Made>, v': Volume, r: Option<Made>, f: Found)
    requires AreDirs(v, dirs) && root in dirs && Find(v, dirs, path, root) == Some(f)
    requires Opened(v, dirs, path, flags, root, cs, mid, m, v', r)
    ensures r.Some? <==> !IsDirectory(f.entry.attr)
    ensures r.None? || !flags.trunc ==> v' == v
    ensures r.Some? ==>
      r == Some(Made(f.parentCluster, f.entryIdx,
                     Image(f.entry.name, f.entry.attr, f.entry.cluster, if flags.trunc then 0 else f.entry.size)))
  {
    LocatedThere(v, dirs, path, flags.create, root, mid, m);
    hide Find, AreDirs, IsDirectory, Reset, IsChain, WellFormed, Located, ChainOf;
  }

  lemma LocatedThere(v: Volume, dirs: map<nat, seq<nat>>, path: seq<byte>, create: bool, root: nat, mid: Volume,
                     m: Option<Made>)
    requires AreDirs(v, dirs) && root in dirs && Find(v, dirs, path, root).Some?
    requires Located(v, dirs, path, create, root, mid, m)
    ensures mid == v && m == Some(AsMade(Find(v, dirs, path, root).value))
  {
    hide Find, AreDirs, AsMade;
  }

  /** A file that opening creates is empty, has no attributes, its path's last component for a name and the lowest
      free cluster for its own. */
  lemma CreatedFileIsEmpty(v: Volume, dirs: map<nat, seq<nat>>, path: seq<byte>, flags: Flags, root: nat, cs: seq<nat>,
                           mid: Volume, m: Option<Made>, v': Volume, r: Option<Made>)
    requires AreDirs(v, dirs) && root in dirs && Find(v, dirs, path, root).None?
    requires Opened(v, dirs, path, flags, root, cs, mid, m, v', r)
    ensures r.Some? ==> flags.create && FreeSet(v) != {}
    ensures r.Some? ==>
      && r.value.image.attr == 0 && r.value.image.size == 0 && r.value.image.name == Basepath(path)
      && r.value.image.cluster as nat == FirstFree(v, 2)
    ensures m.Some? ==> r.Some?
  {
    DirectoryBit(0, 0);
    FreeIsThere(v);
    hide Find, AreDirs, IsDirectory, Reset, IsChain, WellFormed, Basepath, Dirname, Stored, FirstFree, FreeSet, Claim,
      NewIndex;
  }

  /** Opening with truncation frees the file's clusters but the first, and changes no cluster. Lookup finds
      what it found, with the size the file had: reopened, the file has a chain for that size exactly when
      one cluster is enough for it. */
  lemma TruncationIsInMemory(v: Volume, dirs: map<nat, seq<nat>>, path: seq<byte>, flags: Flags, root: nat,
                             cs: seq<nat>, mid: Volume, m: Option<Made>, v': Volume, r: Option<Made>, other: seq<byte>)
    requires AreDirs(v, dirs) && root in dirs && Find(v, dirs, path, root).Some? && flags.trunc
    requires Opened(v, dirs, path, flags, root, cs, mid, m, v', r) && r.Some?
    ensures v'.data == v.data && FreeSet(v') == FreeSet(v) + (set c | c in cs[1..]) && r.value.image.size == 0
    ensures WellFormed(v') && IsFile(v', [cs[0]], 0)
    ensures IsFile(v', [cs[0]], Find(v, dirs, path, root).value.entry.size) <==>
      Find(v, dirs, path, root).value.entry.size as nat <= v.bpc
    ensures ApartFrom(cs, dirs) ==>
      AreDirs(v', dirs) && Find(v', dirs, other, root) == Find(v, dirs, other, root)
  {
    assert mid == v;
    hide Find, AreDirs, IsChain, FreeSet, Reset, Created, IsDirectory, IsFile;
    ResetEffect(v, cs);
    ResetFrees(v, cs);
    OneClusterFile(v', cs[0], 0);
    OneClusterFile(v', cs[0], Find(v, dirs, path, root).value.entry.size);
    if ApartFrom(cs, dirs) { ResetKeepsPaths(v, dirs, cs, other, root); }
  }
}
