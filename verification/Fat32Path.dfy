/** Path lookup: `findFAT32Entry` and the tree walk it is meant to be. */
module Fat32Path {
  import opened Wrappers
  import opened Bytes
  import opened Fat32Volume
  import opened Fat32Mount
  import opened Fat32Names
  import opened Fat32Scan
  import opened Fat32Entries
  import opened Fat32Dir
  import opened Fat32Iterate

  const SLASH: byte := 0x2F
  const BAD_CLUSTER := 0x0FFFFFF7
  const DIRECTORY: byte := 0x10

  predicate IsDirectory(attr: byte) { attr / 0x10 % 2 == 1 }

  /** Bit 4 of the attributes, whatever the others are. */
  lemma DirectoryBit(hi: nat, lo: nat)
    requires hi < 8 && lo < 16
    ensures IsDirectory(32 * hi + 16 + lo) && !IsDirectory(32 * hi + lo)
  {
  }

  datatype Found = Found(parentCluster: nat, entryIdx: nat, entry: Entry)

  /** The entries of a directory, as a fresh iterator yields them. */
  ghost function Listing(v: Volume, chain: seq<nat>): seq<(nat, Entry)>
    requires Within(chain, |v.data|) && AllFit(DirSlots(v, chain))
  {
    Scan(DirSlots(v, chain), ScanState(Zeros(LFN_BUFFER), false), 0)
  }

  ghost predicate IsDir(v: Volume, c: nat, chain: seq<nat>)
  {
    && c < ENDOFCHAIN && IsChain(v, chain) && chain[0] == c
    && CleanDir(DirSlots(v, chain)) && AllFit(DirSlots(v, chain))
  }

  /** `dirs` gives the chains of directories, each for its first cluster. */
  ghost predicate AreDirs(v: Volume, dirs: map<nat, seq<nat>>)
  {
    WellFormed(v) && forall c :: c in dirs ==> IsDir(v, c, dirs[c])
  }

  function FirstMatch(listing: seq<(nat, Entry)>, name: seq<byte>): (m: Option<(nat, Entry)>)
    ensures m.Some? ==> exists i :: 0 <= i < |listing| && listing[i] == m.value && SameName(m.value.1.name, name)
                                    && forall k :: 0 <= k < i ==> !SameName(listing[k].1.name, name)
    ensures m.None? ==> forall k :: 0 <= k < |listing| ==> !SameName(listing[k].1.name, name)
  {
    if listing == [] then None
    else if SameName(listing[0].1.name, name) then
      assert listing[0] == listing[0];
      Some(listing[0])
    else
      var m := FirstMatch(listing[1..], name);
      assert m.Some? ==> exists i :: 0 <= i < |listing| && listing[i] == m.value && SameName(m.value.1.name, name)
                                     && forall k :: 0 <= k < i ==> !SameName(listing[k].1.name, name) by {
        if m.Some? {
          var i :| 0 <= i < |listing| - 1 && listing[1..][i] == m.value && SameName(m.value.1.name, name)
                   && forall k :: 0 <= k < i ==> !SameName(listing[1..][k].1.name, name);
          assert listing[i + 1] == m.value;
          assert forall k :: 1 <= k < i + 1 ==> listing[k] == listing[1..][k - 1];
        }
      }
      assert forall k :: 1 <= k < |listing| ==> listing[k] == listing[1..][k - 1];
      m
  }

  function Root(start: nat): Found
    requires start < ENDOFCHAIN
  {
    Found(BAD_CLUSTER, 0, Entry([], start, DIRECTORY, 0))
  }

  /** A path behind its leading slash. */
  function Unslashed(path: seq<byte>): seq<byte> {
    if path != [] && path[0] == SLASH then path[1..] else path
  }

  /** What `findFAT32Entry` computes. The name is taken behind a leading slash, but the end of the
      component is looked up in the path as given. */
  ghost function Find(v: Volume, dirs: map<nat, seq<nat>>, path: seq<byte>, start: nat): Option<Found>
    requires AreDirs(v, dirs) && start in dirs
    decreases |path|
  {
    var name := Unslashed(path);
    if name == [] then Some(Root(start))
    else
      var chrIdx := IndexOf(name, SLASH);
      match FirstMatch(Listing(v, dirs[start]), name[..chrIdx])
      case None => None
      case Some(m) =>
        if chrIdx == |path| then Some(Found(start, m.0, m.1))
        else if !IsDirectory(m.1.attr) || m.1.cluster !in dirs then None
        else Find(v, dirs, path[chrIdx + 1..], m.1.cluster)
  }

  /** The empty path and "/" give an entry of their own, with the attribute 0x10. */
  lemma FindsRoot(v: Volume, dirs: map<nat, seq<nat>>, start: nat)
    requires AreDirs(v, dirs) && start in dirs
    ensures start < 0x1_0000_0000
    ensures Find(v, dirs, [], start) == Some(Found(0x0FFF_FFF7, 0, Entry([], start, 0x10, 0)))
    ensures Find(v, dirs, [0x2F], start) == Some(Found(0x0FFF_FFF7, 0, Entry([], start, 0x10, 0)))
  {
    assert IsDir(v, start, dirs[start]);
    var slash: seq<byte> := [0x2F];
    assert slash[1..] == [];
  }

  /** A name without a slash finds the first entry of that name. */
  lemma FindsName(v: Volume, dirs: map<nat, seq<nat>>, name: seq<byte>, start: nat)
    requires AreDirs(v, dirs) && start in dirs && name != [] && 0x2F !in name
    ensures Within(dirs[start], |v.data|) && AllFit(DirSlots(v, dirs[start]))
    ensures Find(v, dirs, name, start) ==
      match FirstMatch(Listing(v, dirs[start]), name)
      case None => None
      case Some(m) => Some(Found(start, m.0, m.1))
  {
    DirIsThere(v, dirs, start);
    hide Listing, FirstMatch, AreDirs;
    assert IndexOf(name, SLASH) == |name| && name[..|name|] == name;
  }

  /** In front of a slash it leads on, if bit 4 of that entry's attributes is set, and nowhere if it is clear. */
  lemma FindsThrough(v: Volume, dirs: map<nat, seq<nat>>, name: seq<byte>, rest: seq<byte>, start: nat)
    requires AreDirs(v, dirs) && start in dirs && name != [] && 0x2F !in name
    ensures Within(dirs[start], |v.data|) && AllFit(DirSlots(v, dirs[start]))
    ensures Find(v, dirs, name + [0x2F] + rest, start) ==
      match FirstMatch(Listing(v, dirs[start]), name)
      case None => None
      case Some(m) =>
        if m.1.attr / 16 % 2 == 1 && m.1.cluster in dirs then Find(v, dirs, rest, m.1.cluster) else None
  {
    DirIsThere(v, dirs, start);
    var path := name + [0x2F] + rest;
    assert path[0] == name[0] && path[|name|] == SLASH && path[..|name|] == name && path[|name| + 1..] == rest;
    assert forall k :: 0 <= k < |name| ==> path[k] == name[k];
    var i := IndexOf(path, SLASH);
    hide Listing, FirstMatch, AreDirs;
  }

  /** Lookup descends only into directories of `dirs`, so it is lookup there that `Find` describes. */
  ghost predicate Walkable(v: Volume, dirs: map<nat, seq<nat>>, path: seq<byte>, start: nat)
    requires AreDirs(v, dirs) && start in dirs
    decreases |path|
  {
    var name := Unslashed(path);
    name == [] ||
    var chrIdx := IndexOf(name, SLASH);
    match FirstMatch(Listing(v, dirs[start]), name[..chrIdx])
    case None => true
    case Some(m) =>
      chrIdx == |path| || !IsDirectory(m.1.attr) ||
      (m.1.cluster in dirs && Walkable(v, dirs, path[chrIdx + 1..], m.1.cluster))
  }

  method FindEntry(mount: FAT32Mount, path: seq<byte>, startCluster: nat, ghost dirs: map<nat, seq<nat>>)
    returns (found: Option<Found>)
    requires mount.Valid() && AreDirs(mount.Vol(), dirs) && startCluster in dirs
    requires Walkable(mount.Vol(), dirs, path, startCluster)
    ensures found == Find(mount.Vol(), dirs, path, startCluster)
    decreases |path|
  {
    hide *;
    ghost var v := mount.Vol();
    FindRoot(v, dirs, path, startCluster);
    var name := Unslashed(path);
    if name == [] { return Some(Root(startCluster)); }
    var chrIdx := IndexOf(name, SLASH);
    DirIsThere(v, dirs, startCluster);
    var match_ := SearchDir(mount, startCluster, name[..chrIdx], dirs[startCluster]);
    FindStep(v, dirs, path, startCluster, name, chrIdx, match_);
    if match_.None? { return None; }
    var (idx, entry) := match_.value;
    if chrIdx == |path| { return Some(Found(startCluster, idx, entry)); }
    if !IsDirectory(entry.attr) { return None; }
    found := FindEntry(mount, path[chrIdx + 1..], entry.cluster, dirs);
  }

  lemma FindRoot(v: Volume, dirs: map<nat, seq<nat>>, path: seq<byte>, start: nat)
    requires AreDirs(v, dirs) && start in dirs
    ensures start < ENDOFCHAIN && (Unslashed(path) == [] ==> Find(v, dirs, path, start) == Some(Root(start)))
  {
    assert IsDir(v, start, dirs[start]);
    hide Listing, FirstMatch;
  }

  lemma FindStep(v: Volume, dirs: map<nat, seq<nat>>, path: seq<byte>, start: nat, name: seq<byte>, chrIdx: nat,
                 m: Option<(nat, Entry)>)
    requires AreDirs(v, dirs) && start in dirs && name == Unslashed(path) && name != []
    requires Within(dirs[start], |v.data|) && AllFit(DirSlots(v, dirs[start]))
    requires chrIdx == IndexOf(name, SLASH) && m == FirstMatch(Listing(v, dirs[start]), name[..chrIdx])
    ensures m.None? ==> Find(v, dirs, path, start) == None && Walkable(v, dirs, path, start)
    ensures m.Some? && chrIdx == |path| ==>
      Find(v, dirs, path, start) == Some(Found(start, m.value.0, m.value.1)) && Walkable(v, dirs, path, start)
    ensures m.Some? && chrIdx != |path| && !IsDirectory(m.value.1.attr) ==>
      Find(v, dirs, path, start) == None && Walkable(v, dirs, path, start)
    ensures m.Some? && chrIdx != |path| && IsDirectory(m.value.1.attr) ==>
      && chrIdx < |path| && (Walkable(v, dirs, path, start) ==> m.value.1.cluster in dirs)
      && (m.value.1.cluster !in dirs ==> Find(v, dirs, path, start) == None)
      && (m.value.1.cluster in dirs ==>
            && Find(v, dirs, path, start) == Find(v, dirs, path[chrIdx + 1..], m.value.1.cluster)
            && Walkable(v, dirs, path, start) == Walkable(v, dirs, path[chrIdx + 1..], m.value.1.cluster))
  {
    DirIsThere(v, dirs, start);
    hide FirstMatch, Listing, AreDirs, IsDirectory, AllFit, Within, DirSlots;
  }

  lemma DirIsThere(v: Volume, dirs: map<nat, seq<nat>>, start: nat)
    requires AreDirs(v, dirs) && start in dirs
    ensures IsDir(v, start, dirs[start]) && Within(dirs[start], |v.data|) && AllFit(DirSlots(v, dirs[start]))
  {
    hide Listing;
  }

  /** Whatever lookup finds, it finds by way of `dirs` alone. */
  lemma {:induction false} FoundIsWalkable(v: Volume, dirs: map<nat, seq<nat>>, path: seq<byte>, start: nat)
    requires AreDirs(v, dirs) && start in dirs && Find(v, dirs, path, start).Some?
    ensures Walkable(v, dirs, path, start)
    decreases |path|
  {
    var name := Unslashed(path);
    if name != [] {
      var chrIdx := IndexOf(name, SLASH);
      DirIsThere(v, dirs, start);
      var m := FirstMatch(Listing(v, dirs[start]), name[..chrIdx]);
      FindStep(v, dirs, path, start, name, chrIdx, m);
      hide *;
      if m.Some? && chrIdx != |path| && IsDirectory(m.value.1.attr) && m.value.1.cluster in dirs {
        FoundIsWalkable(v, dirs, path[chrIdx + 1..], m.value.1.cluster);
      }
    }
  }

  /** The loop over the entries of one directory. */
  method SearchDir(mount: FAT32Mount, start: nat, name: seq<byte>, ghost chain: seq<nat>)
    returns (m: Option<(nat, Entry)>)
    requires mount.Valid() && IsDir(mount.Vol(), start, chain)
    ensures m == FirstMatch(Listing(mount.Vol(), chain), name)
  {
    hide mount.Vol, mount.Valid, WellFormed, DirSlots, Scan, CleanDir, SameName;
    ghost var v := mount.Vol();
    var iter := new FAT32Iterator(mount, start, chain);
    FreshListing(v, chain, iter.State());
    assert iter.slots == iter.slots[0..];
    ghost var target := FirstMatch(Listing(v, chain), name);
    while true
      invariant mount.Valid() && mount.Vol() == v && iter.Valid(v) && FirstMatch(iter.Rest(), name) == target
      invariant fresh(iter) && fresh(iter.lfnBuf)
      decreases |iter.Rest()|
    {
      ghost var before := iter.Rest();
      var entry := iter.Next(mount);
      if entry.None? { return None; }
      assert before[0] == entry.value && before[1..] == iter.Rest();
      if SameName(entry.value.1.name, name) { return entry; }
    }
  }

  /** The iterator's buffer starts with arbitrary bytes; that does not show. */
  lemma FreshListing(v: Volume, chain: seq<nat>, st: ScanState)
    requires Within(chain, |v.data|) && CleanDir(DirSlots(v, chain)) && AllFit(DirSlots(v, chain))
    requires |st.buf| == LFN_BUFFER && !st.lfn
    ensures Scan(DirSlots(v, chain), st, 0) == Listing(v, chain)
  {
    ScanIgnoresStale(DirSlots(v, chain), st, ScanState(Zeros(LFN_BUFFER), false), 0);
  }

  // ----- the specification -----

  /** Non-empty components without slashes. */
  ghost predicate Components(comps: seq<seq<byte>>)
  {
    forall i :: 0 <= i < |comps| ==> comps[i] != [] && SLASH !in comps[i]
  }

  function Join(comps: seq<seq<byte>>): seq<byte>
  {
    if comps == [] then [] else if |comps| == 1 then comps[0] else comps[0] + [SLASH] + Join(comps[1..])
  }

  /** The tree walk: the first case-insensitive match of each component in turn, only
      directories being descended into. */
  ghost function TreeWalk(v: Volume, dirs: map<nat, seq<nat>>, comps: seq<seq<byte>>, start: nat): Option<Found>
    requires AreDirs(v, dirs) && start in dirs && comps != []
    decreases |comps|
  {
    match FirstMatch(Listing(v, dirs[start]), comps[0])
    case None => None
    case Some(m) =>
      if |comps| == 1 then Some(Found(start, m.0, m.1))
      else if !IsDirectory(m.1.attr) || m.1.cluster !in dirs then None
      else TreeWalk(v, dirs, comps[1..], m.1.cluster)
  }

  /** The walk descends only into directories of `dirs`. */
  ghost predicate Stays(v: Volume, dirs: map<nat, seq<nat>>, comps: seq<seq<byte>>, start: nat)
    requires AreDirs(v, dirs) && start in dirs && comps != []
    decreases |comps|
  {
    |comps| == 1 ||
    match FirstMatch(Listing(v, dirs[start]), comps[0])
    case None => true
    case Some(m) => !IsDirectory(m.1.attr) || (m.1.cluster in dirs && Stays(v, dirs, comps[1..], m.1.cluster))
  }

  lemma {:induction false} IndexOfJoin(comps: seq<seq<byte>>)
    requires Components(comps) && comps != []
    ensures IndexOf(Join(comps), SLASH) == |comps[0]| && Join(comps)[..|comps[0]|] == comps[0]
    ensures Join(comps)[0] != SLASH
    ensures |comps| == 1 ==> Join(comps) == comps[0]
    ensures |comps| > 1 ==> |comps[0]| < |Join(comps)| && Join(comps)[|comps[0]| + 1..] == Join(comps[1..])
  {
    var j, c := Join(comps), comps[0];
    assert j[..|c|] == c;
    assert forall k :: 0 <= k < |c| ==> j[k] == c[k] && c[k] in c;
    var i := IndexOf(j, SLASH);
    assert |comps| > 1 ==> j[|c|] == SLASH;
  }

  /** On paths of non-empty components with no leading slash, lookup is the tree walk. */
  lemma {:induction false} FindIsTreeWalk(v: Volume, dirs: map<nat, seq<nat>>, comps: seq<seq<byte>>, start: nat)
    requires AreDirs(v, dirs) && start in dirs && comps != [] && Components(comps)
    ensures Find(v, dirs, Join(comps), start) == TreeWalk(v, dirs, comps, start)
    ensures Walkable(v, dirs, Join(comps), start) <==> Stays(v, dirs, comps, start)
    decreases |comps|
  {
    hide Listing, FirstMatch, AreDirs, IsDir, Join, IndexOf, AllFit, Within, DirSlots;
    IndexOfJoin(comps);
    DirIsThere(v, dirs, start);
    var m := FirstMatch(Listing(v, dirs[start]), comps[0]);
    if |comps| > 1 && m.Some? && IsDirectory(m.value.1.attr) && m.value.1.cluster in dirs {
      FindIsTreeWalk(v, dirs, comps[1..], m.value.1.cluster);
    }
  }

  const DOT_DOT: seq<byte> := [DOT, DOT]

  /** Every directory listed in one of `dirs` is in `dirs` too, but for ".." entries, which the FAT
      specification gives cluster 0 below the root. */
  ghost predicate Closed(v: Volume, dirs: map<nat, seq<nat>>)
    requires AreDirs(v, dirs)
  {
    forall d :: d in dirs ==> LeadsInto(v, dirs, d)
  }

  ghost predicate LeadsInto(v: Volume, dirs: map<nat, seq<nat>>, d: nat)
    requires AreDirs(v, dirs) && d in dirs
  {
    DirIsThere(v, dirs, d);
    forall i :: 0 <= i < |Listing(v, dirs[d])| ==> StaysIn(dirs, Listing(v, dirs[d])[i].1)
  }

  predicate StaysIn(dirs: map<nat, seq<nat>>, e: Entry) {
    IsDirectory(e.attr) ==> e.cluster in dirs || e.name == DOT_DOT
  }

  /** On such a volume, lookup of every path without ".." components stays in its directories. */
  lemma {:induction false} WalkableWithoutDotDot(v: Volume, dirs: map<nat, seq<nat>>, comps: seq<seq<byte>>, start: nat)
    requires AreDirs(v, dirs) && Closed(v, dirs) && start in dirs && comps != [] && Components(comps)
    requires DOT_DOT !in comps[..|comps| - 1]
    ensures Walkable(v, dirs, Join(comps), start)
    decreases |comps|
  {
    hide *;
    DirIsThere(v, dirs, start);
    var m := ClosedMatch(v, dirs, comps[0], start);
    JoinHasName(comps);
    FindStep(v, dirs, Join(comps), start, Join(comps), |comps[0]|, m);
    if |comps| > 1 && m.Some? && IsDirectory(m.value.1.attr) {
      assert comps[0] == comps[..|comps| - 1][0];
      assert comps[1..][..|comps| - 2] == comps[..|comps| - 1][1..];
      FewerComponents(comps);
      WalkableWithoutDotDot(v, dirs, comps[1..], m.value.1.cluster);
    }
  }

  lemma ClosedMatch(v: Volume, dirs: map<nat, seq<nat>>, name: seq<byte>, start: nat) returns (m: Option<(nat, Entry)>)
    requires AreDirs(v, dirs) && Closed(v, dirs) && start in dirs
    ensures Within(dirs[start], |v.data|) && AllFit(DirSlots(v, dirs[start]))
    ensures m == FirstMatch(Listing(v, dirs[start]), name)
    ensures name != DOT_DOT && m.Some? && IsDirectory(m.value.1.attr) ==> m.value.1.cluster in dirs
  {
    DirIsThere(v, dirs, start);
    assert LeadsInto(v, dirs, start);
    var listing := Listing(v, dirs[start]);
    m := FirstMatch(listing, name);
    hide Listing, FirstMatch, SameName, IsDirectory;
    if m.Some? {
      var i :| 0 <= i < |listing| && listing[i] == m.value && SameName(m.value.1.name, name);
      assert StaysIn(dirs, listing[i].1);
      OnlyDotDot(name);
    }
  }

  lemma JoinHasName(comps: seq<seq<byte>>)
    requires Components(comps) && comps != []
    ensures Join(comps) != [] && Unslashed(Join(comps)) == Join(comps)
    ensures IndexOf(Join(comps), SLASH) == |comps[0]| && Join(comps)[..|comps[0]|] == comps[0]
    ensures |comps| == 1 ==> |comps[0]| == |Join(comps)|
    ensures |comps| > 1 ==> |comps[0]| < |Join(comps)| && Join(comps)[|comps[0]| + 1..] == Join(comps[1..])
  {
    IndexOfJoin(comps);
  }

  lemma FewerComponents(comps: seq<seq<byte>>)
    requires Components(comps) && comps != []
    ensures Components(comps[1..])
  {
  }

  lemma OnlyDotDot(name: seq<byte>)
    ensures SameName(DOT_DOT, name) ==> name == DOT_DOT
  {
    if SameName(DOT_DOT, name) {
      assert |MapLower(name)| == 2;
      assert Lower(name[0]) == MapLower(name)[0] == MapLower(DOT_DOT)[0] == DOT;
      assert Lower(name[1]) == MapLower(name)[1] == MapLower(DOT_DOT)[1] == DOT;
    }
  }

  /** The directory reached through `comps`, when every one of them is a directory. */
  ghost function DirWalk(v: Volume, dirs: map<nat, seq<nat>>, comps: seq<seq<byte>>, start: nat): (c: Option<nat>)
    requires AreDirs(v, dirs) && start in dirs
    ensures c.Some? ==> c.value in dirs && c.value < ENDOFCHAIN
    decreases |comps|
  {
    DirIsThere(v, dirs, start);
    if comps == [] then Some(start)
    else
      match FirstMatch(Listing(v, dirs[start]), comps[0])
      case None => None
      case Some(m) =>
        if !IsDirectory(m.1.attr) || m.1.cluster !in dirs then None else DirWalk(v, dirs, comps[1..], m.1.cluster)
  }

  /** A leading slash breaks lookup: the last component is never taken as the last, so
      files are not found at all and a directory comes back as a nameless root. */
  lemma {:induction false} LeadingSlashFindsNoFile(v: Volume, dirs: map<nat, seq<nat>>, comps: seq<seq<byte>>,
      start: nat)
    requires AreDirs(v, dirs) && start in dirs && comps != [] && Components(comps)
    ensures Find(v, dirs, [SLASH] + Join(comps), start) ==
      var c := DirWalk(v, dirs, comps, start);
      if c.None? then None else Some(Root(c.value))
    decreases |comps|
  {
    hide Listing, FirstMatch, AreDirs, IsDir, Join, IndexOf, AllFit, Within, DirSlots;
    IndexOfJoin(comps);
    DirIsThere(v, dirs, start);
    var path, m := [SLASH] + Join(comps), FirstMatch(Listing(v, dirs[start]), comps[0]);
    assert path[1..] == Join(comps);
    if m.Some? && IsDirectory(m.value.1.attr) && m.value.1.cluster in dirs {
      var rest := path[|comps[0]| + 1..];
      if |comps| == 1 {
        assert rest == [];
        assert comps[1..] == [];
      } else {
        assert rest == [SLASH] + Join(comps[1..]) by { SlashBehind(comps); }
        LeadingSlashFindsNoFile(v, dirs, comps[1..], m.value.1.cluster);
      }
    }
  }

  lemma SlashBehind(comps: seq<seq<byte>>)
    requires |comps| > 1
    ensures Join(comps)[|comps[0]|..] == [SLASH] + Join(comps[1..])
  {
    assert Join(comps) == comps[0] + ([SLASH] + Join(comps[1..]));
  }
}
