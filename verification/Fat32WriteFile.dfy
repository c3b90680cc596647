/** `writeFAT32File`: writing is splicing into the file's content. */
module Fat32WriteFile {
  import opened Bytes
  import opened Fat32Volume
  import opened Fat32Mount
  import opened Fat32Entries
  import opened Fat32Dir
  import opened Fat32Write
  import opened Fat32AddEntry
  import opened Fat32File

  /** The volume once chain `cs` has been extended to `needed` clusters. */
  function Enlarged(v: Volume, cs: seq<nat>, needed: nat): Growth
    requires WellFormed(v) && IsChain(v, cs)
  {
    if needed <= |cs| then Growth(v, [], true)
    else
      assert IsCluster(v, cs[|cs| - 1]);
      Grow(v, Last(cs), needed - |cs|)
  }

  /** The extension a write that ends at `end` makes to a file of `size` bytes. */
  function Extension(v: Volume, cs: seq<nat>, size: nat, end: nat): Growth
    requires WellFormed(v) && IsChain(v, cs)
  {
    if end <= size then Growth(v, [], true) else Enlarged(v, cs, (end + v.bpc - 1) / v.bpc)
  }

  /** What writing `data` at `offset` leaves of a file of `im.size` bytes in chain `cs`,
      whose directory entry is slot `idx` of directory `dir`. `mid` is the volume after
      the chain was extended and the entry updated. */
  ghost predicate FileWritten(v: Volume, cs: seq<nat>, dir: seq<nat>, im: Image, idx: nat, offset: nat,
                              data: seq<byte>, mid: Volume, v': Volume, n: nat, size': nat)
    requires IsFile(v, cs, im.size) && IsChain(v, dir) && |Base(im.name)| <= 11
    requires offset + |data| < 0x1_0000_0000
  {
    var end := offset + |data|;
    var g := Extension(v, cs, im.size, end);
    if !g.ok then n == 0 && size' == im.size && v' == g.vol
    else
      && n == |data| && size' == Max(im.size, end)
      && EntryUpdated(g.vol, dir, im, idx, end, mid)
      && Stored(mid, v', cs + g.added, offset, data)
  }

  /** The entry on disk follows the size when the file grows. */
  ghost predicate EntryUpdated(v: Volume, dir: seq<nat>, im: Image, idx: nat, end: nat, mid: Volume)
    requires |Base(im.name)| <= 11 && end < 0x1_0000_0000
  {
    if end <= im.size then mid == v
    else
      && WellFormed(v) && IsChain(v, dir)
      && exists ok :: Overwritten(v, dir, im.(size := end), idx, mid, ok)
  }

  ghost predicate Stored(v: Volume, v': Volume, cs: seq<nat>, offset: nat, data: seq<byte>)
  {
    && Within(cs, |v.data|) && offset + |data| <= |Load(v, cs)|
    && Rewritten(v, v', cs, Splice(Load(v, cs), offset, data))
  }

  // ----- the steps of a write, and what they keep -----

  /** Another chain is not touched when `cs` is extended. */
  lemma EnlargeKeeps(v: Volume, cs: seq<nat>, needed: nat, o: seq<nat>)
    requires WellFormed(v) && IsChain(v, cs) && IsChain(v, o) && Disjoint(cs, o)
    ensures var g := Enlarged(v, cs, needed);
      && WellFormed(g.vol) && g.vol.bpc == v.bpc && |g.vol.data| == |v.data| && IsChain(g.vol, o)
      && Disjoint(cs + g.added, o)
      && Within(o, |v.data|) && Load(g.vol, o) == Load(v, o) && DirSlots(g.vol, o) == DirSlots(v, o)
  {
    assert IsCluster(v, cs[|cs| - 1]);
    if needed > |cs| {
      ChainIsInUse(v, cs);
      ChainIsInUse(v, o);
      assert Last(cs) in cs;
      GrowTakesFree(v, Last(cs), needed - |cs|);
      GrewKeeps(v, cs, Grow(v, Last(cs), needed - |cs|), o);
    } else {
      assert cs + [] == cs;
    }
  }

  lemma GrewKeeps(v: Volume, cs: seq<nat>, g: Growth, o: seq<nat>)
    requires IsChain(v, cs) && IsChain(v, o) && Disjoint(cs, o) && Grew(v, Last(cs), g)
    requires forall c :: c in o ==> IsCluster(v, c) && c !in FreeSet(v)
    ensures IsChain(g.vol, o) && Disjoint(cs + g.added, o)
    ensures Within(o, |v.data|) && Load(g.vol, o) == Load(v, o) && DirSlots(g.vol, o) == DirSlots(v, o)
  {
    assert Last(cs) in cs;
    forall i | 0 <= i < |o|
      ensures IsCluster(v, o[i]) && o[i] !in g.added && o[i] != Last(cs)
      ensures g.vol.fat[o[i]] == v.fat[o[i]] && g.vol.data[o[i]] == v.data[o[i]]
    {
      assert o[i] in o;
    }
    hide FreeSet;
    ChainFrame(v, g.vol, o);
    LoadFrame(v, g.vol, o);
    DirFrame(v, g.vol, o);
  }

  /** The extended chain keeps the file's content as its front. */
  lemma EnlargeExtends(v: Volume, cs: seq<nat>, needed: nat)
    requires WellFormed(v) && IsChain(v, cs)
    ensures var g := Enlarged(v, cs, needed);
      && WellFormed(g.vol) && g.vol.bpc == v.bpc && |g.vol.data| == |v.data| && IsChain(g.vol, cs + g.added)
      && (g.ok <==> needed <= |cs| || needed - |cs| <= |FreeSet(v)|)
      && (g.ok ==> |cs + g.added| == Max(needed, |cs|))
      && |FreeSet(g.vol)| + |cs + g.added| == |FreeSet(v)| + |cs|
      && (forall c :: c in g.added ==> c in FreeSet(v))
      && Within(cs, |v.data|) && Within(cs + g.added, |g.vol.data|)
      && Load(v, cs) <= Load(g.vol, cs + g.added)
  {
    if needed > |cs| {
      GrowFacts(v, cs, needed - |cs|);
    } else {
      assert cs + [] == cs;
      ChainIsInUse(v, cs);
      assert forall i :: 0 <= i < |cs| ==> cs[i] in cs && IsCluster(v, cs[i]);
    }
  }

  lemma GrowFacts(v: Volume, cs: seq<nat>, n: nat)
    requires WellFormed(v) && IsChain(v, cs) && n > 0
    ensures IsCluster(v, Last(cs))
    ensures var g := Grow(v, Last(cs), n);
      && WellFormed(g.vol) && g.vol.bpc == v.bpc && |g.vol.data| == |v.data| && IsChain(g.vol, cs + g.added)
      && (g.ok <==> n <= |FreeSet(v)|) && |g.added| == Min(n, |FreeSet(v)|)
      && |FreeSet(g.vol)| + |g.added| == |FreeSet(v)|
      && (forall c :: c in g.added ==> c in FreeSet(v))
      && Within(cs, |v.data|) && Within(cs + g.added, |g.vol.data|)
      && Load(v, cs) <= Load(g.vol, cs + g.added)
  {
    ChainIsInUse(v, cs);
    assert Last(cs) in cs;
    hide Grow, Load, IsChain, FreeSet, WellFormed;
    GrowTakesFree(v, Last(cs), n);
    GrowCount(v, Last(cs), n);
    GrowExtendsChain(v, cs, n);
    GrewExtends(v, cs, Grow(v, Last(cs), n));
  }

  lemma GrewExtends(v: Volume, cs: seq<nat>, g: Growth)
    requires IsChain(v, cs) && Grew(v, Last(cs), g) && IsChain(g.vol, cs + g.added)
    ensures Within(cs, |v.data|) && Within(cs + g.added, |g.vol.data|)
    ensures Load(v, cs) <= Load(g.vol, cs + g.added)
  {
    ChainIsInUse(v, cs);
    forall i | 0 <= i < |cs|
      ensures IsCluster(v, cs[i]) && g.vol.data[cs[i]] == v.data[cs[i]]
    {
      assert cs[i] in cs && cs[i] !in g.added;
    }
    LoadFrame(v, g.vol, cs);
    LoadAppend(g.vol, cs, g.added);
  }

  /** Writing inside `dir` keeps every chain, and the bytes of those apart from `dir`. */
  lemma UpdateKeeps(v: Volume, dir: seq<nat>, im: Image, idx: nat, v': Volume, ok: bool, o: seq<nat>)
    requires WellFormed(v) && IsChain(v, dir) && |Base(im.name)| <= 11 && Overwritten(v, dir, im, idx, v', ok)
    requires IsChain(v, o)
    ensures WellFormed(v') && v'.bpc == v.bpc && v'.fat == v.fat && |v'.data| == |v.data| && IsChain(v', o)
    ensures Within(o, |v.data|) && (Disjoint(dir, o) ==> Load(v', o) == Load(v, o) && DirSlots(v', o) == DirSlots(v, o))
  {
    hide Load, Written, AliasFor, DirSlots;
    ChainIsInUse(v, o);
    assert forall i :: 0 <= i < |o| ==> o[i] in o && IsCluster(v, o[i]);
    if ok && Disjoint(dir, o) {
      LoadFrame(v, v', o);
      DirFrame(v, v', o);
    }
  }

  lemma RewriteKeeps(v: Volume, v': Volume, cs: seq<nat>, content: seq<byte>, o: seq<nat>)
    requires WellFormed(v) && IsChain(v, o) && Rewritten(v, v', cs, content)
    ensures WellFormed(v') && v'.bpc == v.bpc && v'.fat == v.fat && |v'.data| == |v.data| && IsChain(v', o)
    ensures Within(o, |v.data|) && (Disjoint(cs, o) ==> Load(v', o) == Load(v, o) && DirSlots(v', o) == DirSlots(v, o))
  {
    hide Load, DirSlots;
    ChainIsInUse(v, o);
    assert forall i :: 0 <= i < |o| ==> o[i] in o && IsCluster(v, o[i]);
    if Disjoint(cs, o) {
      LoadFrame(v, v', o);
      DirFrame(v, v', o);
    }
  }

  lemma SpliceFront(whole: seq<byte>, front: seq<byte>, size: nat, offset: nat, d: seq<byte>)
    requires front <= whole && offset <= size <= |front| && offset + |d| <= |whole|
    ensures Splice(whole, offset, d)[..Max(size, offset + |d|)] == Splice(front[..size], offset, d)
  {
  }

  lemma SizesAgree(size: nat, end: nat, bpc: nat, n: nat)
    requires bpc > 0 && end > size && n == (end + bpc - 1) / bpc
    ensures ClustersFor(size, bpc) <= n == ClustersFor(end, bpc)
  {
    RoundUpMonotonic(size, end, bpc);
    RoundUpMonotonic(1, end, bpc);
    DivMod(bpc, bpc, 1, 0);
  }

  lemma ExtensionFacts(v: Volume, cs: seq<nat>, size: nat, end: nat)
    requires IsFile(v, cs, size)
    ensures var g := Extension(v, cs, size, end);
      && WellFormed(g.vol) && g.vol.bpc == v.bpc && |g.vol.data| == |v.data| && IsChain(g.vol, cs + g.added)
      && (g.ok <==> end <= size || (end + v.bpc - 1) / v.bpc - |cs| <= |FreeSet(v)|)
      && (g.ok ==> |cs + g.added| == ClustersFor(Max(size, end), v.bpc))
      && |FreeSet(g.vol)| + |cs + g.added| == |FreeSet(v)| + |cs|
      && (forall c :: c in g.added ==> c in FreeSet(v))
      && Within(cs, |v.data|) && Within(cs + g.added, |g.vol.data|) && size <= |Load(v, cs)|
      && Load(v, cs) <= Load(g.vol, cs + g.added)
  {
    FileFits(v, cs, size);
    if end <= size {
      assert cs + [] == cs;
    } else {
      SizesAgree(size, end, v.bpc, (end + v.bpc - 1) / v.bpc);
      EnlargeExtends(v, cs, (end + v.bpc - 1) / v.bpc);
    }
  }

  lemma ExtensionKeeps(v: Volume, cs: seq<nat>, size: nat, end: nat, o: seq<nat>)
    requires WellFormed(v) && IsChain(v, cs) && IsChain(v, o) && Disjoint(cs, o)
    ensures var g := Extension(v, cs, size, end);
      && IsChain(g.vol, o) && Disjoint(cs + g.added, o) && |g.vol.data| == |v.data|
      && Within(o, |v.data|) && Load(g.vol, o) == Load(v, o) && DirSlots(g.vol, o) == DirSlots(v, o)
  {
    if end <= size {
      assert cs + [] == cs;
      EnlargeKeeps(v, cs, 0, o);
    } else {
      EnlargeKeeps(v, cs, (end + v.bpc - 1) / v.bpc, o);
    }
  }

  lemma EntryUpdateKeeps(v: Volume, dir: seq<nat>, im: Image, idx: nat, end: nat, mid: Volume, o: seq<nat>)
    requires |Base(im.name)| <= 11 && end < 0x1_0000_0000 && EntryUpdated(v, dir, im, idx, end, mid)
    requires WellFormed(v) && IsChain(v, o)
    ensures WellFormed(mid) && mid.bpc == v.bpc && mid.fat == v.fat && |mid.data| == |v.data| && IsChain(mid, o)
    ensures Within(o, |v.data|)
    ensures (Disjoint(dir, o) ==> Load(mid, o) == Load(v, o) && DirSlots(mid, o) == DirSlots(v, o))
  {
    hide Load, DirSlots, Overwritten;
    ChainIsInUse(v, o);
    assert forall i :: 0 <= i < |o| ==> o[i] in o && IsCluster(v, o[i]);
    if end > im.size {
      var ok :| Overwritten(v, dir, im.(size := end), idx, mid, ok);
      UpdateKeeps(v, dir, im.(size := end), idx, mid, ok, o);
    }
  }

  /** A successful write turns the content into its splice with the data, grows size and
      chain together, takes clusters only from the free ones and keeps their total.
      It succeeds exactly when the volume has the clusters to extend the file. */
  lemma WriteIsSplice(v: Volume, cs: seq<nat>, dir: seq<nat>, im: Image, idx: nat, offset: nat, data: seq<byte>,
                      mid: Volume, v': Volume, n: nat, size': nat)
    requires IsFile(v, cs, im.size) && IsChain(v, dir) && Disjoint(cs, dir) && |Base(im.name)| <= 11
    requires offset <= im.size && offset + |data| < 0x1_0000_0000
    requires FileWritten(v, cs, dir, im, idx, offset, data, mid, v', n, size')
    ensures var end := offset + |data|; var g := Extension(v, cs, im.size, end); var cs' := cs + g.added;
      && (g.ok <==> end <= im.size || (end + v.bpc - 1) / v.bpc - |cs| <= |FreeSet(v)|)
      && (!g.ok ==> n == 0 && size' == im.size)
      && WellFormed(v') && IsChain(v', cs') && IsChain(v', dir)
      && (forall c :: c in g.added ==> c in FreeSet(v))
      && |FreeSet(v')| + |cs'| == |FreeSet(v)| + |cs|
      && |Content(v, cs, im.size)| == im.size as int
      && (g.ok ==>
            && n == |data| && size' == Max(im.size, end) && IsFile(v', cs', size')
            && Content(v', cs', size') == Splice(Content(v, cs, im.size), offset, data))
      && (!g.ok ==> Content(v', cs', size') == Content(v, cs, im.size))
  {
    hide *;
    var end := offset + |data|;
    FileIs(v, cs, im.size);
    var g := Extension(v, cs, im.size, end);
    ExtensionFacts(v, cs, im.size, end);
    ExtensionKeeps(v, cs, im.size, end, dir);
    WrittenParts(v, cs, dir, im, idx, offset, data, mid, v', n, size');
    if g.ok {
      EntryUpdateKeeps(g.vol, dir, im, idx, end, mid, cs + g.added);
      EntryUpdateKeeps(g.vol, dir, im, idx, end, mid, dir);
      DisjointFlips(cs + g.added, dir);
      StoreIsSplice(v, cs, cs + g.added, g.vol, mid, v', im.size, offset, data, dir);
      IsFileFrom(v', cs + g.added, size');
    } else {
      SameFront(v, cs, v', cs + g.added, im.size);
    }
  }

  lemma FileIs(v: Volume, cs: seq<nat>, size: nat)
    requires IsFile(v, cs, size)
    ensures WellFormed(v) && IsChain(v, cs) && |cs| == ClustersFor(size, v.bpc) && v.bpc > 0 && |v.data| <= |v.fat|
  {
  }

  lemma IsFileFrom(v: Volume, cs: seq<nat>, size: nat)
    requires WellFormed(v) && IsChain(v, cs) && |cs| == ClustersFor(size, v.bpc)
    ensures IsFile(v, cs, size)
  {
  }

  lemma DisjointFlips(a: seq<nat>, b: seq<nat>)
    requires Disjoint(a, b)
    ensures Disjoint(b, a)
  {
  }

  lemma WrittenParts(v: Volume, cs: seq<nat>, dir: seq<nat>, im: Image, idx: nat, offset: nat, data: seq<byte>,
                     mid: Volume, v': Volume, n: nat, size': nat)
    requires IsFile(v, cs, im.size) && IsChain(v, dir) && |Base(im.name)| <= 11 && offset + |data| < 0x1_0000_0000
    requires FileWritten(v, cs, dir, im, idx, offset, data, mid, v', n, size')
    ensures var g := Extension(v, cs, im.size, offset + |data|);
      if !g.ok then n == 0 && size' == im.size as int && v' == g.vol
      else
        && n == |data| && size' == Max(im.size, offset + |data|)
        && EntryUpdated(g.vol, dir, im, idx, offset + |data|, mid) && Stored(mid, v', cs + g.added, offset, data)
  {
    hide Extension, EntryUpdated, Stored, IsFile;
  }

  lemma SameFront(v: Volume, cs: seq<nat>, v': Volume, cs': seq<nat>, size: nat)
    requires Within(cs, |v.data|) && Within(cs', |v'.data|) && size <= |Load(v, cs)| && Load(v, cs) <= Load(v', cs')
    ensures Content(v', cs', size) == Content(v, cs, size) && |Content(v, cs, size)| == size
  {
    hide Load;
    FrontIsSame(Load(v', cs'), Load(v, cs), size);
  }

  lemma FrontIsSame(whole: seq<byte>, front: seq<byte>, size: nat)
    requires front <= whole && size <= |front|
    ensures size <= |whole| && whole[..size] == front[..size]
  {
  }

  lemma StoreIsSplice(v: Volume, cs: seq<nat>, cs': seq<nat>, g: Volume, mid: Volume, v': Volume, size: nat,
                      offset: nat, data: seq<byte>, dir: seq<nat>)
    requires WellFormed(mid) && IsChain(mid, cs') && IsChain(mid, dir) && Stored(mid, v', cs', offset, data)
    requires Within(cs, |v.data|) && Within(cs', |g.data|) && |mid.data| == |g.data| && Load(mid, cs') == Load(g, cs')
    requires Load(v, cs) <= Load(g, cs') && offset <= size <= |Load(v, cs)|
    requires mid.fat == g.fat && mid.bpc == g.bpc && |g.data| <= |g.fat|
    ensures WellFormed(v') && IsChain(v', cs') && IsChain(v', dir) && v'.bpc == g.bpc
    ensures |g.data| <= |g.fat| && |v'.data| == |g.data| && |v'.fat| == |g.fat| && |FreeSet(v')| == |FreeSet(g)|
    ensures |Content(v, cs, size)| == size
    ensures Content(v', cs', Max(size, offset + |data|)) == Splice(Content(v, cs, size), offset, data)
  {
    hide Load, Splice;
    RewriteKeeps(mid, v', cs', Splice(Load(mid, cs'), offset, data), cs');
    RewriteKeeps(mid, v', cs', Splice(Load(mid, cs'), offset, data), dir);
    SpliceFront(Load(mid, cs'), Load(v, cs), size, offset, data);
    SpliceLength(Load(mid, cs'), offset, data);
    assert FreeSet(v') == FreeSet(g);
  }

  lemma SpliceLength(s: seq<byte>, at: nat, d: seq<byte>)
    requires at + |d| <= |s|
    ensures |Splice(s, at, d)| == |s|
  {
  }

  /** No other chain changes: neither its links nor, unless it is the directory that
      holds the file's entry, its bytes; and the file does not run into it. */
  lemma WriteKeepsOthers(v: Volume, cs: seq<nat>, dir: seq<nat>, im: Image, idx: nat, offset: nat, data: seq<byte>,
                         mid: Volume, v': Volume, n: nat, size': nat, o: seq<nat>)
    requires IsFile(v, cs, im.size) && IsChain(v, dir) && Disjoint(cs, dir) && |Base(im.name)| <= 11
    requires offset + |data| < 0x1_0000_0000
    requires FileWritten(v, cs, dir, im, idx, offset, data, mid, v', n, size')
    requires IsChain(v, o) && Disjoint(cs, o)
    ensures var g := Extension(v, cs, im.size, offset + |data|);
      && WellFormed(v') && |v'.data| == |v.data| && v'.bpc == v.bpc && IsChain(v', o) && Within(o, |v.data|)
      && Disjoint(cs + g.added, o)
      && (Disjoint(dir, o) ==> Load(v', o) == Load(v, o) && DirSlots(v', o) == DirSlots(v, o))
  {
    var end := offset + |data|;
    var g := Extension(v, cs, im.size, end);
    ExtensionFacts(v, cs, im.size, end);
    ExtensionKeeps(v, cs, im.size, end, o);
    if g.ok {
      assert Rewritten(mid, v', cs + g.added, Splice(Load(mid, cs + g.added), offset, data));
    }
    hide Extension, Load, Splice, FreeSet, IsChain, WellFormed, EntryUpdated, DirSlots, ClustersFor, Rewritten;
    if g.ok {
      EntryUpdateKeeps(g.vol, dir, im, idx, end, mid, o);
      RewriteKeeps(mid, v', cs + g.added, Splice(Load(mid, cs + g.added), offset, data), o);
    }
  }

  /** A write that fails for lack of clusters has linked every free cluster to the file,
      whose size stays: the chain is then longer than the size calls for, unless the
      volume was full already. */
  lemma FailedWriteTakesAll(v: Volume, cs: seq<nat>, dir: seq<nat>, im: Image, idx: nat, offset: nat, data: seq<byte>,
                            mid: Volume, v': Volume, n: nat, size': nat)
    requires IsFile(v, cs, im.size) && IsChain(v, dir) && |Base(im.name)| <= 11
    requires offset <= im.size && offset + |data| < 0x1_0000_0000
    requires FileWritten(v, cs, dir, im, idx, offset, data, mid, v', n, size')
    requires !Extension(v, cs, im.size, offset + |data|).ok
    ensures var cs' := cs + Extension(v, cs, im.size, offset + |data|).added;
      && WellFormed(v') && FreeSet(v') == {} && |cs'| == |cs| + |FreeSet(v)|
      && (IsFile(v', cs', size') <==> FreeSet(v) == {})
  {
    var end := offset + |data|;
    var g := Extension(v, cs, im.size, end);
    ExtensionFacts(v, cs, im.size, end);
    ChainIsInUse(v, cs);
    assert Last(cs) in cs;
    GrowCount(v, Last(cs), (end + v.bpc - 1) / v.bpc - |cs|);
  }

  // ----- the method -----

  lemma ReadyToStore(v: Volume, cs: seq<nat>, dir: seq<nat>, im: Image, idx: nat, end: nat, mid: Volume)
    requires IsFile(v, cs, im.size) && IsChain(v, dir) && Disjoint(cs, dir) && |Base(im.name)| <= 11
    requires end < 0x1_0000_0000 && Extension(v, cs, im.size, end).ok
    requires EntryUpdated(Extension(v, cs, im.size, end).vol, dir, im, idx, end, mid)
    ensures var cs' := cs + Extension(v, cs, im.size, end).added;
      && IsChain(mid, cs') && cs'[0] == cs[0] && Within(cs', |mid.data|) && end <= |Load(mid, cs')|
  {
    var g := Extension(v, cs, im.size, end);
    ExtensionFacts(v, cs, im.size, end);
    EntryUpdateKeeps(g.vol, dir, im, idx, end, mid, cs + g.added);
    FileFits(mid, cs + g.added, Max(im.size, end));
  }

  /** The part of a write that extends the file and its entry. */
  method GrowFile(mount: FAT32Mount, entry: FAT32Entry, end: nat, ghost cs: seq<nat>, ghost dir: seq<nat>)
    returns (ok: bool)
    requires mount.Valid() && IsFile(mount.Vol(), cs, entry.size) && cs[0] == entry.cluster as nat
    requires entry.size as int < end < 0x1_0000_0000
    requires IsChain(mount.Vol(), dir) && dir[0] == entry.parentCluster && Disjoint(cs, dir) && |Base(entry.name)| <= 11
    requires entry.parentEntryIdx < |DirSlots(mount.Vol(), dir)| && entry.parentEntryIdx < MAX_SLOTS
    modifies mount.device, entry
    ensures mount.Valid()
    ensures entry.name == old(entry.name) && entry.attr == old(entry.attr) && entry.cluster == old(entry.cluster)
    ensures entry.parentEntryIdx == old(entry.parentEntryIdx) && entry.parentCluster == old(entry.parentCluster)
    ensures var g := Extension(old(mount.Vol()), cs, old(entry.size), end);
      && ok == g.ok && entry.size as int == (if ok then end else old(entry.size))
      && (!ok ==> mount.Vol() == g.vol)
      && (ok ==> EntryUpdated(g.vol, dir, old(Image(entry.name, entry.attr, entry.cluster, entry.size)),
                              entry.parentEntryIdx, end, mount.Vol()))
  {
    hide *;
    ghost var v := mount.Vol();
    GrowReady(v, cs, dir, entry.size, end);
    ghost var g := Extension(v, cs, entry.size, end);
    var existingClusters, neededClusters := CountClustersFor(entry.size, end, mount.bytesPerCluster);
    ok := ExtendChain(mount, entry.cluster, existingClusters, neededClusters, cs);
    if !ok { return false; }
    ghost var im := Image(entry.name, entry.attr, entry.cluster, entry.size);
    entry.size := end;
    var updated := WriteEntry(mount, entry, true, dir);
    UpdateIs(g.vol, dir, im, entry.parentEntryIdx, end, mount.Vol(), updated);
  }

  method CountClustersFor(size: nat, end: nat, bytesPerCluster: nat)
    returns (existingClusters: nat, neededClusters: nat)
    requires bytesPerCluster > 0
    ensures existingClusters == ClustersFor(size, bytesPerCluster)
    ensures neededClusters == (end + bytesPerCluster - 1) / bytesPerCluster
  {
    existingClusters := if size != 0 then (size + bytesPerCluster - 1) / bytesPerCluster else 1;
    neededClusters := (end + bytesPerCluster - 1) / bytesPerCluster;
  }

  lemma GrowReady(v: Volume, cs: seq<nat>, dir: seq<nat>, size: nat, end: nat)
    requires IsFile(v, cs, size) && IsChain(v, dir) && Disjoint(cs, dir) && end > size
    ensures WellFormed(v) && v.bpc > 0 && |cs| == ClustersFor(size, v.bpc) && IsChain(v, cs)
    ensures var g := Extension(v, cs, size, end);
      && g == Enlarged(v, cs, (end + v.bpc - 1) / v.bpc)
      && WellFormed(g.vol) && IsChain(g.vol, dir) && Within(dir, |v.data|) && Within(dir, |g.vol.data|)
      && DirSlots(g.vol, dir) == DirSlots(v, dir)
  {
    ExtensionFacts(v, cs, size, end);
    ExtensionKeeps(v, cs, size, end, dir);
  }

  lemma UpdateIs(v: Volume, dir: seq<nat>, im: Image, idx: nat, end: nat, mid: Volume, ok: bool)
    requires WellFormed(v) && IsChain(v, dir) && |Base(im.name)| <= 11 && im.size as int < end < 0x1_0000_0000
    requires Overwritten(v, dir, im.(size := end), idx, mid, ok)
    ensures EntryUpdated(v, dir, im, idx, end, mid)
  {
  }

  method ExtendChain(mount: FAT32Mount, start: nat, existing: nat, needed: nat, ghost cs: seq<nat>) returns (ok: bool)
    requires mount.Valid() && IsChain(mount.Vol(), cs) && |cs| == existing && cs[0] == start
    modifies mount.device
    ensures mount.Valid()
    ensures ok == Enlarged(old(mount.Vol()), cs, needed).ok && mount.Vol() == Enlarged(old(mount.Vol()), cs, needed).vol
  {
    hide mount.Vol, mount.Valid, Grow, WellFormed;
    var newStart;
    ok, newStart := mount.ExtendFile(start, existing, needed, cs);
  }

  method WriteFile(mount: FAT32Mount, file: FILE, buffer: seq<byte>, offset: nat, ghost cs: seq<nat>,
                   ghost dir: seq<nat>) returns (totalBytesWritten: nat, ghost mid: Volume)
    requires mount.Valid() && IsFile(mount.Vol(), cs, file.internal.size) && cs[0] == file.internal.cluster as nat
    requires offset <= file.internal.size && offset + |buffer| < 0x1_0000_0000
    requires IsChain(mount.Vol(), dir) && dir[0] == file.internal.parentCluster && Disjoint(cs, dir)
    requires |Base(file.internal.name)| <= 11
    requires file.internal.parentEntryIdx < |DirSlots(mount.Vol(), dir)| && file.internal.parentEntryIdx < MAX_SLOTS
    modifies mount.device, file, file.internal
    ensures mount.Valid()
    ensures var e := file.internal;
      FileWritten(old(mount.Vol()), cs, dir, old(Image(e.name, e.attr, e.cluster, e.size)), old(e.parentEntryIdx),
                  offset, buffer, mid, mount.Vol(), totalBytesWritten, e.size)
    ensures file.size ==
      if file.internal.size != old(file.internal.size) then file.internal.size as nat else old(file.size)
    ensures file.internal.name == old(file.internal.name) && file.internal.cluster == old(file.internal.cluster)
    ensures file.internal.attr == old(file.internal.attr)
    ensures file.internal.parentEntryIdx == old(file.internal.parentEntryIdx)
    ensures file.internal.parentCluster == old(file.internal.parentCluster)
  {
    hide *;
    ghost var v := mount.Vol();
    ghost var im := Image(file.internal.name, file.internal.attr, file.internal.cluster, file.internal.size);
    ghost var idx, end := file.internal.parentEntryIdx, offset + |buffer|;
    SmallExtension(v, cs, im.size, end);
    ghost var g := Extension(v, cs, im.size, end);
    mid := v;
    if offset + |buffer| > file.internal.size {
      var ok := GrowFile(mount, file.internal, offset + |buffer|, cs, dir);
      mid := mount.Vol();
      if !ok {
        FailedIs(v, cs, dir, im, idx, offset, buffer, mid);
        return 0, mid;
      }
      file.size := file.internal.size;
    } else {
      NoUpdate(v, dir, im, idx, end);
    }
    ReadyToStore(v, cs, dir, im, idx, end, mid);
    totalBytesWritten := StoreData(mount, file.internal.cluster, buffer, offset, cs + g.added);
    WrittenIsSo(v, cs, dir, im, idx, offset, buffer, mid, mount.Vol());
  }

  method StoreData(mount: FAT32Mount, start: nat, buffer: seq<byte>, offset: nat, ghost cs: seq<nat>) returns (n: nat)
    requires mount.Valid() && IsChain(mount.Vol(), cs) && cs[0] == start
    requires Within(cs, |mount.Vol().data|) && offset + |buffer| <= |Load(mount.Vol(), cs)|
    modifies mount.device
    ensures mount.Valid() && n == |buffer| && Stored(old(mount.Vol()), mount.Vol(), cs, offset, buffer)
  {
    hide mount.Vol, mount.Valid, IsChain, Load, Within, Splice, Rewritten, AtCluster;
    var currentCluster, byteOffset;
    ghost var k, a;
    currentCluster, byteOffset, k, a := Seek(mount, start, offset, cs);
    n := WriteClusters(mount, currentCluster, byteOffset, buffer, cs, k, a);
  }

  lemma SmallExtension(v: Volume, cs: seq<nat>, size: nat, end: nat)
    requires IsFile(v, cs, size)
    ensures WellFormed(v) && IsChain(v, cs)
    ensures end <= size ==> Extension(v, cs, size, end) == Growth(v, [], true)
  {
  }

  lemma NoUpdate(v: Volume, dir: seq<nat>, im: Image, idx: nat, end: nat)
    requires |Base(im.name)| <= 11 && end <= im.size as int
    ensures EntryUpdated(v, dir, im, idx, end, v)
  {
  }

  lemma FailedIs(v: Volume, cs: seq<nat>, dir: seq<nat>, im: Image, idx: nat, offset: nat, data: seq<byte>, mid: Volume)
    requires IsFile(v, cs, im.size) && IsChain(v, dir) && |Base(im.name)| <= 11 && offset + |data| < 0x1_0000_0000
    requires !Extension(v, cs, im.size, offset + |data|).ok
    ensures var g := Extension(v, cs, im.size, offset + |data|);
      FileWritten(v, cs, dir, im, idx, offset, data, mid, g.vol, 0, im.size)
  {
  }

  lemma WrittenIsSo(v: Volume, cs: seq<nat>, dir: seq<nat>, im: Image, idx: nat, offset: nat, data: seq<byte>,
                    mid: Volume, v': Volume)
    requires IsFile(v, cs, im.size) && IsChain(v, dir) && |Base(im.name)| <= 11 && offset + |data| < 0x1_0000_0000
    requires var g := Extension(v, cs, im.size, offset + |data|);
      g.ok && EntryUpdated(g.vol, dir, im, idx, offset + |data|, mid) && Stored(mid, v', cs + g.added, offset, data)
    ensures FileWritten(v, cs, dir, im, idx, offset, data, mid, v', |data|, Max(im.size, offset + |data|))
    ensures Max(im.size, offset + |data|) == if offset + |data| > im.size as int then offset + |data| else im.size
  {
  }
}
