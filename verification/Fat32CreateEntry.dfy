/** `createFAT32Entry` itself, and the paths it is called with. */
module Fat32CreateEntry {
  import opened Wrappers
  import opened Bytes
  import opened Fat32Volume
  import opened Fat32Mount
  import opened Fat32Names
  import opened Fat32Scan
  import opened Fat32Entries
  import opened Fat32Aliases
  import opened Fat32Dir
  import opened Fat32Write
  import opened Fat32AddEntry
  import opened Fat32Path
  import opened Fat32Claim
  import opened Fat32Create
  import opened Fat32Format

  // ----- dirname and basepath -----

  /** The index behind the last slash. */
  function NameStart(path: seq<byte>): (i: nat)
    ensures i <= |path| && (i > 0 ==> path[i - 1] == SLASH) && forall k :: i <= k < |path| ==> path[k] != SLASH
  {
    if path == [] then 0
    else if path[|path| - 1] == SLASH then |path|
    else NameStart(path[..|path| - 1])
  }

  function Basepath(path: seq<byte>): seq<byte> { path[NameStart(path)..] }

  /** Everything before the last slash; empty when there is none, or none but a leading one. */
  function Dirname(path: seq<byte>): seq<byte> {
    if NameStart(path) <= 1 then [] else path[..NameStart(path) - 1]
  }

  method FindBasepath(path: seq<byte>) returns (name: seq<byte>)
    ensures name == Basepath(path)
  {
    var lastSlash, p := 0, 0;
    while p < |path|
      invariant p <= |path| && lastSlash == NameStart(path[..p])
    {
      assert path[..p + 1][..p] == path[..p];
      if path[p] == SLASH { lastSlash := p + 1; }
      p := p + 1;
    }
    assert path[..p] == path;
    name := path[lastSlash..];
  }

  method FindDirname(path: seq<byte>) returns (name: seq<byte>)
    ensures name == Dirname(path)
  {
    var lastSlash, p := 0, 0;
    while p < |path|
      invariant p <= |path| && lastSlash == if NameStart(path[..p]) == 0 then 0 else NameStart(path[..p]) - 1
    {
      assert path[..p + 1][..p] == path[..p];
      if path[p] == SLASH { lastSlash := p; }
      p := p + 1;
    }
    assert path[..p] == path;
    if lastSlash == 0 { return []; }
    name := path[..lastSlash];
  }

  lemma {:induction false} NameStartIs(path: seq<byte>, i: nat)
    requires i <= |path| && (i > 0 ==> path[i - 1] == SLASH) && forall k :: i <= k < |path| ==> path[k] != SLASH
    ensures NameStart(path) == i
  {
    if i < |path| { NameStartIs(path[..|path| - 1], i); }
  }

  lemma {:induction false} JoinLast(comps: seq<seq<byte>>, name: seq<byte>)
    ensures Join(comps + [name]) == if comps == [] then name else Join(comps) + [SLASH] + name
    decreases |comps|
  {
    var all := comps + [name];
    if comps == [] {
      assert all == [name];
    } else {
      assert all[1..] == comps[1..] + [name];
      JoinLast(comps[1..], name);
      if |comps| > 1 {
        assert Join(comps) == comps[0] + [SLASH] + Join(comps[1..]);
        var rest := Join(comps[1..]);
        assert comps[0] + [SLASH] + (rest + [SLASH] + name) == (comps[0] + [SLASH] + rest) + [SLASH] + name;
      }
    }
  }

  /** Splitting a path at its last slash gives its last component and the path to it. */
  lemma SplitJoined(comps: seq<seq<byte>>, name: seq<byte>)
    requires Components(comps + [name])
    ensures Basepath(Join(comps + [name])) == name && Dirname(Join(comps + [name])) == Join(comps)
  {
    var path := Join(comps + [name]);
    JoinLast(comps, name);
    assert (comps + [name])[|comps|] == name;
    if comps == [] {
      NameStartIs(path, 0);
    } else {
      assert (comps + [name])[0] == comps[0] && |Join(comps)| > 0;
      NameStartIs(path, |Join(comps)| + 1);
    }
  }

  /** Any path is split at its last slash; a directory part that is only a leading slash is dropped. */
  lemma SplitAnywhere(dir: seq<byte>, name: seq<byte>)
    requires 0x2F !in name
    ensures Basepath(name) == name && Dirname(name) == []
    ensures Basepath(dir + [0x2F] + name) == name && Dirname(dir + [0x2F] + name) == dir
  {
    var path := dir + [0x2F] + name;
    NameStartIs(name, 0);
    NameStartIs(path, |dir| + 1);
    assert path[|dir| + 1..] == name && path[..|dir|] == dir;
  }

  /** Lookup finds the directory a walk through directories ends in. */
  lemma {:induction false} WalkFindsDirectory(v: Volume, dirs: map<nat, seq<nat>>, comps: seq<seq<byte>>, start: nat,
      p: nat)
    requires AreDirs(v, dirs) && start in dirs && comps != [] && DirWalk(v, dirs, comps, start) == Some(p)
    ensures TreeWalk(v, dirs, comps, start).Some? && TreeWalk(v, dirs, comps, start).value.entry.cluster == p
    decreases |comps|
  {
    hide *;
    var m := DirWalkStep(v, dirs, comps, start);
    var m' := WalkStep(v, dirs, comps, start);
    if |comps| > 1 {
      WalkFindsDirectory(v, dirs, comps[1..], m.value.1.cluster, p);
    } else {
      assert comps[1..] == [];
      NoDirWalk(v, dirs, m.value.1.cluster);
    }
  }

  lemma FindsDirectory(v: Volume, dirs: map<nat, seq<nat>>, comps: seq<seq<byte>>, start: nat, p: nat)
    requires AreDirs(v, dirs) && start in dirs && Components(comps) && DirWalk(v, dirs, comps, start) == Some(p)
    ensures var d := Find(v, dirs, Join(comps), start); d.Some? && d.value.entry.cluster == p
  {
    if comps != [] {
      hide *;
      WalkFindsDirectory(v, dirs, comps, start, p);
      FindIsTreeWalk(v, dirs, comps, start);
    } else {
      assert IsDir(v, start, dirs[start]);
    }
  }

  // ----- the operation -----

  datatype Info = Info(size: u32, cluster: u32, attr: byte)

  /** The entry a call returns. */
  datatype Made = Made(parentCluster: nat, parentEntryIdx: nat, image: Image)

  /** An entry that was found, as it is returned. */
  function AsMade(f: Found): Made {
    Made(f.parentCluster, f.entryIdx, Image(f.entry.name, f.entry.attr, f.entry.cluster, f.entry.size))
  }

  /** Lookup stays in known directories; the directory the new entry goes to is one of them, its name fits
      the alias buffer and its slots one cluster. */
  ghost predicate CanCreate(v: Volume, dirs: map<nat, seq<nat>>, path: seq<byte>, info: Info, root: nat)
    requires AreDirs(v, dirs) && root in dirs
  {
    && Walkable(v, dirs, path, root)
    && (Find(v, dirs, path, root).None? ==>
          var d := Find(v, dirs, Dirname(path), root);
          && Walkable(v, dirs, Dirname(path), root)
          && (d.Some? ==>
                var p := d.value.entry.cluster;
                && p in dirs && |Base(Basepath(path))| <= 11
                && if info.cluster < ENDOFCHAIN then RoomFor(v, dirs[p], Basepath(path))
                   else FreeSet(v) != {} ==> RoomForClaim(v, FirstFree(v, 2), dirs[p], Basepath(path))))
  }

  ghost predicate RoomFor(v: Volume, dir: seq<nat>, name: seq<byte>) {
    WellFormed(v) && IsChain(v, dir) && |DirSlots(v, dir)| < ENDOFCHAIN && OneCluster(v, dir, name)
  }

  ghost predicate RoomForClaim(v: Volume, c: nat, dir: seq<nat>, name: seq<byte>) {
    c < |v.data| <= |v.fat| && RoomFor(Claim(v, c), dir, name)
  }

  ghost predicate Stored(v: Volume, dir: seq<nat>, im: Image, v': Volume, ok: bool) {
    WellFormed(v) && IsChain(v, dir) && |Base(im.name)| <= 11 && Added(v, dir, im, v', ok)
  }

  /** What a call does: an existing entry is returned; without a parent, or without a free cluster
      when one is asked for, nothing happens; otherwise the cluster is claimed and the entry is
      added to the parent. When no alias is left the claimed cluster stays allocated. */
  ghost predicate Created(v: Volume, dirs: map<nat, seq<nat>>, path: seq<byte>, info: Info, root: nat, v': Volume,
                          r: Option<Made>)
    requires AreDirs(v, dirs) && root in dirs
  {
    var name := Basepath(path);
    match Find(v, dirs, path, root)
    case Some(f) => v' == v && r == Some(AsMade(f))
    case None =>
      match Find(v, dirs, Dirname(path), root)
      case None => v' == v && r == None
      case Some(d) =>
        var p := d.entry.cluster;
        p in dirs &&
        if info.cluster < ENDOFCHAIN then
          var im := Image(name, info.attr, info.cluster, info.size);
          Stored(v, dirs[p], im, v', r.Some?) && (r.Some? ==> r.value == Made(p, NewIndex(v, dirs[p], name), im))
        else if FreeSet(v) == {} then v' == v && r == None
        else
          var c := FirstFree(v, 2);
          && c < |v.data| <= |v.fat| && c < 0x1_0000_0000
          && var im := Image(name, info.attr, c, info.size);
             && Stored(Claim(v, c), dirs[p], im, v', r.Some?)
             && (r.Some? ==> r.value == Made(p, NewIndex(Claim(v, c), dirs[p], name), im))
  }

  ghost function ResultOf(entry: FAT32Entry?): Option<Made>
    reads entry
  {
    if entry == null then None
    else
      var im := Image(entry.name, entry.attr, entry.cluster, entry.size);
      Some(Made(entry.parentCluster, entry.parentEntryIdx, im))
  }

  lemma TreeChain(v: Volume, dirs: map<nat, seq<nat>>, p: nat)
    requires AreDirs(v, dirs) && p in dirs
    ensures WellFormed(v) && IsChain(v, dirs[p]) && dirs[p][0] == p
  {
    assert IsDir(v, p, dirs[p]);
  }

  lemma FreeIsThere(v: Volume)
    requires WellFormed(v)
    ensures FirstFree(v, 2) < |v.data| <==> FreeSet(v) != {}
    ensures FreeSet(v) != {} ==>
      FirstFree(v, 2) in FreeSet(v) && FirstFree(v, 2) < |v.data| <= |v.fat| && FirstFree(v, 2) < ENDOFCHAIN
  {
    FirstFreeIsFree(v);
  }

  lemma ClaimIs(v: Volume, c: nat)
    requires c < |v.data| <= |v.fat|
    ensures Claim(v, c) == SetNext(Take(v, c), c, ENDOFCHAIN)
  {
  }

  method CreateEntry(mount: FAT32Mount, path: seq<byte>, info: Info, ghost dirs: map<nat, seq<nat>>)
    returns (entry: FAT32Entry?)
    requires mount.Valid() && AreDirs(mount.Vol(), dirs) && mount.rootCluster in dirs
    requires CanCreate(mount.Vol(), dirs, path, info, mount.rootCluster)
    modifies mount.device
    ensures mount.Valid() && (entry != null ==> fresh(entry))
    ensures Created(old(mount.Vol()), dirs, path, info, mount.rootCluster, mount.Vol(), ResultOf(entry))
  {
    hide mount.Vol, mount.Valid, AreDirs, Find, Walkable, Dirname, Basepath, FirstFree, FreeSet, Claim, Take, SetNext,
      Added, OneCluster, WellFormed, DirSlots, IsChain, Base, NewIndex;
    ghost var v, root := mount.Vol(), mount.rootCluster;
    var found := FindEntry(mount, path, mount.rootCluster, dirs);
    if found.Some? {
      var e := found.value.entry;
      entry := new FAT32Entry(found.value.parentCluster, e.name, e.cluster, e.attr, e.size);
      entry.parentEntryIdx := found.value.entryIdx;
      return;
    }
    var fname := FindBasepath(path);
    var dname := FindDirname(path);
    var dirEntry := FindEntry(mount, dname, mount.rootCluster, dirs);
    if dirEntry.None? { return null; }
    var parent := dirEntry.value.entry.cluster;
    TreeChain(v, dirs, parent);
    FreeIsThere(v);
    var cluster := info.cluster;
    if info.cluster >= ENDOFCHAIN {
      cluster := ClaimCluster(mount);
      if cluster >= ENDOFCHAIN { return null; }
    }
    entry := new FAT32Entry(parent, fname, cluster, info.attr, info.size);
    var ok := WriteEntry(mount, entry, false, dirs[parent]);
    if !ok { return null; }
  }

  /** Allocate a cluster and make it a chain of its own. */
  method ClaimCluster(mount: FAT32Mount) returns (cluster: u32)
    requires mount.Valid()
    modifies mount.device
    ensures mount.Valid()
    ensures var v := old(mount.Vol());
      if FreeSet(v) == {} then cluster == ENDOFCHAIN && mount.Vol() == v
      else
        && cluster == FirstFree(v, 2) && cluster < |v.data| <= |v.fat| && cluster < ENDOFCHAIN
        && mount.Vol() == Claim(v, cluster)
  {
    hide mount.Vol, mount.Valid, FirstFree, FreeSet, Take, SetNext, Claim, WellFormed;
    ghost var v := mount.Vol();
    FreeIsThere(v);
    var c := mount.AllocCluster();
    if c >= ENDOFCHAIN { return ENDOFCHAIN; }
    TakeLength(v, c);
    ClaimIs(v, c);
    var linked := mount.SetNextCluster(c, ENDOFCHAIN);
    cluster := c;
  }

  lemma TakeLength(v: Volume, c: nat)
    requires c < |v.data| <= |v.fat|
    ensures |Take(v, c).fat| == |v.fat|
  {
  }

  // ----- the new path is found -----

  lemma {:induction false} NotFoundNotListed(v: Volume, dirs: map<nat, seq<nat>>, comps: seq<seq<byte>>,
      name: seq<byte>, start: nat, p: nat)
    requires AreDirs(v, dirs) && start in dirs && DirWalk(v, dirs, comps, start) == Some(p)
    requires TreeWalk(v, dirs, comps + [name], start) == None
    ensures p in dirs && IsDir(v, p, dirs[p]) && Within(dirs[p], |v.data|) && AllFit(DirSlots(v, dirs[p]))
    ensures FirstMatch(Listing(v, dirs[p]), name).None?
    decreases |comps|
  {
    hide *;
    var m' := WalkStep(v, dirs, comps + [name], start);
    if comps == [] {
      NoDirWalk(v, dirs, start);
      DirIsThere(v, dirs, start);
    } else {
      var m := DirWalkStep(v, dirs, comps, start);
      assert (comps + [name])[0] == comps[0] && (comps + [name])[1..] == comps[1..] + [name];
      NotFoundNotListed(v, dirs, comps[1..], name, m.value.1.cluster, p);
    }
  }

  /** A successful call that claims a cluster is a creation in the directory the path names. */
  lemma CreatedIsCreation(v: Volume, dirs: map<nat, seq<nat>>, comps: seq<seq<byte>>, name: seq<byte>, info: Info,
                          root: nat, p: nat, v': Volume, r: Option<Made>) returns (c: nat, im: Image)
    requires AreDirs(v, dirs) && Apart(dirs) && root in dirs && Components(comps + [name]) && info.cluster >= ENDOFCHAIN
    requires DirWalk(v, dirs, comps, root) == Some(p) && Find(v, dirs, Join(comps + [name]), root) == None
    requires CanCreate(v, dirs, Join(comps + [name]), info, root)
    requires Created(v, dirs, Join(comps + [name]), info, root, v', r) && r.Some?
    requires Nameable(name) && info.attr != LONG_NAME
    ensures c == FirstFree(v, 2) && im.name == name && im.attr == info.attr && im.cluster == c && im.size == info.size
    ensures Creation(v, dirs, p, c, im, v') && r == Some(Made(p, NewEntry(v, dirs, p, c, im, v').0, im))
  {
    SplitJoined(comps, name);
    FewerComponents(comps, name);
    FindsDirectory(v, dirs, comps, root, p);
    TreeChain(v, dirs, p);
    FreeIsThere(v);
    hide Find, Walkable, AreDirs, Apart, DirWalk, Added, OneCluster, FirstFree, FreeSet, Claim, Nameable, IsChain,
      WellFormed, DirSlots, NewIndex;
    c := FirstFree(v, 2);
    im := Image(name, info.attr, c, info.size);
  }

  lemma FewerComponents(comps: seq<seq<byte>>, name: seq<byte>)
    requires Components(comps + [name])
    ensures Components(comps)
  {
    assert forall i :: 0 <= i < |comps| ==> (comps + [name])[i] == comps[i];
  }

  /** After a creation for a path that was not there, lookup of that path finds the new entry exactly when the
      parent directory leaves the name its plain alias or long-name slots were written for it. */
  lemma CreatedPathIsFound(v: Volume, dirs: map<nat, seq<nat>>, comps: seq<seq<byte>>, name: seq<byte>, root: nat,
                           p: nat, c: nat, im: Image, v': Volume)
    requires AreDirs(v, dirs) && root in dirs && Components(comps + [name])
    requires DirWalk(v, dirs, comps, root) == Some(p) && Find(v, dirs, Join(comps + [name]), root) == None
    requires Creation(v, dirs, p, c, im, v') && im.name == name
    ensures p in dirs && Within(dirs[p], |v.data|) && |Base(name)| <= 11
    ensures var slots := DirSlots(v, dirs[p]); FoundAgain(slots, name) ==> NewName(v, dirs, p, StoredAs(slots, name))
    ensures var dirs' := DirsAfter(v, dirs, p, c, im, v'); var e := NewEntry(v, dirs, p, c, im, v');
      && AreDirs(v', dirs') && root in dirs'
      && Find(v', dirs', Join(comps + [name]), root) ==
         if FoundAgain(DirSlots(v, dirs[p]), name) then Some(Found(p, e.0, e.1)) else None
  {
    hide *;
    FindIsTreeWalk(v, dirs, comps + [name], root);
    NotFoundNotListed(v, dirs, comps, name, root, p);
    NewEntryName(v, dirs, p, c, im, v');
    CreationTree(v, dirs, p, c, im, v');
    NameableParts(name);
    var slots := DirSlots(v, dirs[p]);
    NewEntryAlias(v, dirs, p, c, im, v');
    StoredUnderOwnName(slots, name);
    NotListedIsNew(v, dirs, p, name);
    if FoundAgain(slots, name) {
      AlikeIsNew(v, dirs, p, name, StoredAs(slots, name));
      LeadsToNew(v, dirs, comps, name, root, p, StoredAs(slots, name));
      NewNameWalks(v, dirs, p, c, im, v', comps + [name], root);
    } else {
      LostNameIsNotFound(v, dirs, p, c, im, v', comps, name, root);
    }
    FindIsTreeWalk(v', DirsAfter(v, dirs, p, c, im, v'), comps + [name], root);
  }

  lemma NewEntryAlias(v: Volume, dirs: map<nat, seq<nat>>, p: nat, c: nat, im: Image, v': Volume)
    requires Creation(v, dirs, p, c, im, v') && |Base(im.name)| <= 11 && p in dirs && Within(dirs[p], |v.data|)
    ensures AliasFor(DirSlots(v, dirs[p]), im.name).Some?
  {
    hide *;
    CreationParts(v, dirs, p, c, im, v');
    CreationTree(v, dirs, p, c, im, v');
    ClaimKeeps(v, c, dirs[p]);
    var n, room := AddedIsWritten(Claim(v, c), dirs[p], im, v');
    RoomAliases(Claim(v, c), dirs[p], n + 1, room, im.name);
    var a := WrittenAlias(DirSlots(room.vol, room.chain), im, room.start);
  }

  lemma NotListedIsNew(v: Volume, dirs: map<nat, seq<nat>>, p: nat, name: seq<byte>)
    requires p in dirs && IsDir(v, p, dirs[p]) && Within(dirs[p], |v.data|) && AllFit(DirSlots(v, dirs[p]))
    requires FirstMatch(Listing(v, dirs[p]), name).None?
    ensures NewName(v, dirs, p, name)
  {
  }

  lemma AlikeIsNew(v: Volume, dirs: map<nat, seq<nat>>, p: nat, name: seq<byte>, like: seq<byte>)
    requires NewName(v, dirs, p, name) && SameName(like, name)
    ensures NewName(v, dirs, p, like)
  {
    NoMatchAlike(Listing(v, dirs[p]), like, name);
  }

  lemma LeadsToNew(v: Volume, dirs: map<nat, seq<nat>>, comps: seq<seq<byte>>, name: seq<byte>, start: nat, p: nat,
                   like: seq<byte>)
    requires AreDirs(v, dirs) && start in dirs && DirWalk(v, dirs, comps, start) == Some(p) && SameName(like, name)
    ensures LeadsTo(v, dirs, comps + [name], start, p, like) && Stays(v, dirs, comps + [name], start)
  {
    var all := comps + [name];
    assert all[..|all| - 1] == comps;
    LeadsToIs(v, dirs, all, start, p, like);
    WalkStays(v, dirs, comps, name, start, p);
  }

  lemma {:induction false} WalkStays(v: Volume, dirs: map<nat, seq<nat>>, comps: seq<seq<byte>>, name: seq<byte>,
                                     start: nat, p: nat)
    requires AreDirs(v, dirs) && start in dirs && DirWalk(v, dirs, comps, start) == Some(p)
    ensures Stays(v, dirs, comps + [name], start)
    decreases |comps|
  {
    hide *;
    var all := comps + [name];
    var m' := WalkStep(v, dirs, all, start);
    if comps != [] {
      var m := DirWalkStep(v, dirs, comps, start);
      assert all[0] == comps[0] && all[1..] == comps[1..] + [name];
      WalkStays(v, dirs, comps[1..], name, m.value.1.cluster, p);
    }
  }

  /** What becomes of every path that can be looked up: it finds the new entry if its last component is the
      first to meet it, nothing if it would lead on from it, and what it found in all other cases. */
  lemma OtherPathsAreKept(v: Volume, dirs: map<nat, seq<nat>>, root: nat, p: nat, c: nat, im: Image, v': Volume,
                          others: seq<seq<byte>>)
    requires AreDirs(v, dirs) && root in dirs && Creation(v, dirs, p, c, im, v')
    requires p in dirs && Within(dirs[p], |v.data|) && |Base(im.name)| <= 11
    requires Components(others) && others != [] && Walkable(v, dirs, Join(others), root)
    ensures var dirs' := DirsAfter(v, dirs, p, c, im, v'); var e := NewEntry(v, dirs, p, c, im, v');
      var n := Meeting(v, dirs, p, e.0, StoredAs(DirSlots(v, dirs[p]), im.name), others, root);
      && AreDirs(v', dirs') && root in dirs'
      && Find(v', dirs', Join(others), root) ==
         if n == 0 then Find(v, dirs, Join(others), root) else if n == 1 then Some(Found(p, e.0, e.1)) else None
  {
    hide *;
    FindIsTreeWalk(v, dirs, others, root);
    WalksAfter(v, dirs, p, c, im, v', others, root);
    FindIsTreeWalk(v', DirsAfter(v, dirs, p, c, im, v'), others, root);
  }

  /** A name of 1 to 8 of the characters that aliases take over, with an extension of 1 to 3 characters, none of
      them a small letter, or with none and no dot: created where no slot carries its alias, it is found. */
  lemma PlainNameIsFound(v: Volume, dirs: map<nat, seq<nat>>, comps: seq<seq<byte>>, b: seq<byte>, dot: bool,
                         e: seq<byte>, root: nat, p: nat, c: nat, im: Image, v': Volume)
    requires AreDirs(v, dirs) && root in dirs && Components(comps + [Dotted(b, dot, e)])
    requires 1 <= |b| <= 8 && |e| <= 3 && (dot ==> e != []) && forall i :: 0 <= i < |b| ==>
      65 <= b[i] <= 90 || b[i] as char in "0123456789" || b[i] as char in "$%'-_@~`!(){}^#&"
    requires forall i :: 0 <= i < |e| ==> !(97 <= e[i] <= 122)
    requires DirWalk(v, dirs, comps, root) == Some(p)
    requires Find(v, dirs, Join(comps + [Dotted(b, dot, e)]), root) == None
    requires Creation(v, dirs, p, c, im, v') && im.name == Dotted(b, dot, e)
    requires Within(dirs[p], |v.data|) && forall s :: s in DirSlots(v, dirs[p]) ==> s[..11] != PlainBytes(b, dot, e)
    ensures var dirs' := DirsAfter(v, dirs, p, c, im, v'); var n := NewEntry(v, dirs, p, c, im, v');
      && AreDirs(v', dirs') && root in dirs'
      && Find(v', dirs', Join(comps + [Dotted(b, dot, e)]), root) == Some(Found(p, n.0, n.1))
  {
    hide *;
    CreatedPathIsFound(v, dirs, comps, Dotted(b, dot, e), root, p, c, im, v');
    PlainNameKept(DirSlots(v, dirs[p]), b, dot, e);
  }

  // ----- a leading slash -----

  lemma SlashedParts(name: seq<byte>)
    requires Components([name])
    ensures Basepath([SLASH] + name) == name && Dirname([SLASH] + name) == [] && Join([name]) == name
  {
    assert [name][0] == name;
    NameStartIs([SLASH] + name, 1);
  }

  lemma SlashedCreation(v: Volume, dirs: map<nat, seq<nat>>, name: seq<byte>, info: Info, root: nat, v': Volume,
                        r: Option<Made>) returns (c: nat, im: Image)
    requires AreDirs(v, dirs) && Apart(dirs) && root in dirs && Components([name]) && info.cluster >= ENDOFCHAIN
    requires DirWalk(v, dirs, [name], root) == None && CanCreate(v, dirs, [SLASH] + name, info, root)
    requires Created(v, dirs, [SLASH] + name, info, root, v', r) && r.Some?
    requires Nameable(name) && info.attr != LONG_NAME
    ensures Find(v, dirs, [SLASH] + name, root) == None
    ensures im.name == name && im.attr == info.attr && Creation(v, dirs, root, c, im, v')
  {
    SlashedParts(name);
    LeadingSlashFindsNoFile(v, dirs, [name], root);
    NoDirWalk(v, dirs, root);
    FindsDirectory(v, dirs, [], root, root);
    TreeChain(v, dirs, root);
    FreeIsThere(v);
    hide Find, Walkable, AreDirs, Apart, DirWalk, Added, OneCluster, FirstFree, FreeSet, Claim, Nameable, IsChain,
      WellFormed, DirSlots, NewIndex;
    c := FirstFree(v, 2);
    im := Image(name, info.attr, c, info.size);
  }

  lemma NewEntryIsNamed(v: Volume, dirs: map<nat, seq<nat>>, p: nat, c: nat, im: Image, v': Volume)
    requires Creation(v, dirs, p, c, im, v')
    ensures RequiredSlots(im.name) > 0 ==> NewEntry(v, dirs, p, c, im, v').1.name == im.name
  {
    hide *;
    CreationParts(v, dirs, p, c, im, v');
    CreationTree(v, dirs, p, c, im, v');
    ParentListsNew(v, dirs, p, c, im, v');
    NewEntryIs(v, dirs, p, c, im, v');
    var chain := DirChain(v, dirs, p, c, im, v');
    NamedByRun(im, DirSlots(v', chain)[NewIndex(Claim(v, c), dirs[p], im.name)]);
  }

  lemma NamedByRun(im: Image, short: Slot)
    ensures RequiredSlots(im.name) > 0 ==> EntryOf(im, short).name == im.name
  {
  }

  lemma StillNoDirectory(v: Volume, dirs: map<nat, seq<nat>>, name: seq<byte>, root: nat, c: nat, im: Image,
                         v': Volume)
    requires AreDirs(v, dirs) && root in dirs && DirWalk(v, dirs, [name], root) == None
    requires Creation(v, dirs, root, c, im, v') && !IsDirectory(im.attr)
    ensures var dirs' := DirsAfter(v, dirs, root, c, im, v');
      AreDirs(v', dirs') && root in dirs' && DirWalk(v', dirs', [name], root) == None
  {
    hide *;
    var dirs', one := DirsAfter(v, dirs, root, c, im, v'), [name];
    assert one[1..] == [];
    TreeAfter(v, dirs, root, c, im, v');
    NewEntryName(v, dirs, root, c, im, v');
    NewDirIsEmpty(v, dirs, root, c, im, v');
    MatchAfter(v, dirs, root, c, im, v', root, name);
    var m := DirWalkStep(v, dirs, one, root);
    var m' := DirWalkStep(v', dirs', one, root);
    if m'.Some? && m'.value.1.cluster in dirs' {
      var to := m'.value.1.cluster;
      DirsAfterAt(v, dirs, root, c, im, v', to);
      NoDirWalk(v', dirs', to);
      if to in dirs { NoDirWalk(v, dirs, to); }
    }
  }

  /** Behind a leading slash lookup does not find a file, so creating "/x" adds an entry for "x" to the root
      whether there is one or not, and still does not find it: every successful call adds another. */
  lemma SlashedPathAddsAnother(v: Volume, dirs: map<nat, seq<nat>>, name: seq<byte>, info: Info, root: nat, v': Volume,
                               r: Option<Made>) returns (c: nat, im: Image)
    requires AreDirs(v, dirs) && Apart(dirs) && root in dirs && Components([name]) && info.cluster >= ENDOFCHAIN
    requires DirWalk(v, dirs, [name], root) == None && CanCreate(v, dirs, [SLASH] + name, info, root)
    requires Created(v, dirs, [SLASH] + name, info, root, v', r) && r.Some?
    requires Nameable(name) && info.attr != LONG_NAME && !IsDirectory(info.attr)
    ensures Find(v, dirs, [SLASH] + name, root) == None && im.name == name && Creation(v, dirs, root, c, im, v')
    ensures var dirs' := DirsAfter(v, dirs, root, c, im, v'); var e := NewEntry(v, dirs, root, c, im, v');
      && AreDirs(v', dirs') && Apart(dirs') && root in dirs' && DirWalk(v', dirs', [name], root) == None
      && Find(v', dirs', [SLASH] + name, root) == None
      && Within(dirs[root], |v.data|) && Within(dirs'[root], |v'.data|)
      && AllFit(DirSlots(v, dirs[root])) && AllFit(DirSlots(v', dirs'[root]))
      && OneMore(Listing(v, dirs[root]), Listing(v', dirs'[root]), e)
      && (RequiredSlots(name) > 0 ==> e.1.name == name)
  {
    hide *;
    c, im := SlashedCreation(v, dirs, name, info, root, v', r);
    SlashedParts(name);
    ApartAfter(v, dirs, root, c, im, v');
    CreationTree(v, dirs, root, c, im, v');
    TreeAfter(v, dirs, root, c, im, v');
    ListingAfter(v, dirs, root, c, im, v', root);
    DirFits(v, root, dirs[root]);
    DirFits(v', root, DirsAfter(v, dirs, root, c, im, v')[root]);
    NewEntryIsNamed(v, dirs, root, c, im, v');
    StillNoDirectory(v, dirs, name, root, c, im, v');
    LeadingSlashFindsNoFile(v', DirsAfter(v, dirs, root, c, im, v'), [name], root);
  }
}
