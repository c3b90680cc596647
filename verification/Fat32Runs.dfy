/** Whole runs of the driver: a volume of directories and open files under creation,
    writing and truncation, against files that are plain byte sequences. */
module Fat32Runs {
  import opened Bytes
  import opened Fat32Volume
  import opened Fat32Entries
  import opened Fat32Dir
  import opened Fat32Write
  import opened Fat32AddEntry
  import opened Fat32File
  import opened Fat32WriteFile
  import opened Fat32Claim

  /** An open file: its chain, the in-memory entry, and where the entry is on disk. */
  datatype FileRec = FileRec(chain: seq<nat>, im: Image, dir: nat, idx: nat)

  datatype FS = FS(vol: Volume, dirs: seq<seq<nat>>, files: seq<FileRec>)

  datatype Op =
    | Create(d: nat, im: Image)
    | WriteAt(f: nat, offset: nat, data: seq<byte>)
    | Truncate(f: nat)

  function FileChains(files: seq<FileRec>): (cs: seq<seq<nat>>)
    ensures |cs| == |files|
  {
    seq(|files|, i requires 0 <= i < |files| => files[i].chain)
  }

  function AllChains(fs: FS): seq<seq<nat>> {
    fs.dirs + FileChains(fs.files)
  }

  function Total(cs: seq<seq<nat>>): nat {
    if cs == [] then 0 else |cs[0]| + Total(cs[1..])
  }

  /** All chains are chains and no two of them share a cluster. */
  ghost predicate Separate(v: Volume, cs: seq<seq<nat>>)
  {
    && WellFormed(v)
    && (forall i :: 0 <= i < |cs| ==> IsChain(v, cs[i]))
    && forall i, j :: 0 <= i < j < |cs| ==> Disjoint(cs[i], cs[j])
  }

  ghost predicate GoodFile(fs: FS, r: FileRec)
  {
    && WellFormed(fs.vol) && IsChain(fs.vol, r.chain) && |r.chain| == ClustersFor(r.im.size, fs.vol.bpc)
    && r.chain[0] == r.im.cluster as nat && r.dir < |fs.dirs| && |Base(r.im.name)| <= 11
  }

  /** The invariant of every failure-free run: disjoint chains, each as long as its
      file's size calls for. That chains are acyclic, end in end-of-chain and hold no
      free cluster is part of being a chain. */
  ghost predicate Inv(fs: FS)
  {
    Separate(fs.vol, AllChains(fs)) && forall i :: 0 <= i < |fs.files| ==> GoodFile(fs, fs.files[i])
  }

  /** Free clusters and clusters in chains together. */
  ghost function Holdings(fs: FS): nat
    requires WellFormed(fs.vol)
  {
    |FreeSet(fs.vol)| + Total(AllChains(fs))
  }

  ghost predicate Step(fs: FS, op: Op, fs': FS)
    requires Inv(fs)
  {
    match op
    case Create(d, im) => CreateStep(fs, d, im, fs')
    case WriteAt(f, offset, data) => WriteStep(fs, f, offset, data, fs')
    case Truncate(f) => TruncateStep(fs, f, fs')
  }

  ghost predicate CreateStep(fs: FS, d: nat, im: Image, fs': FS)
    requires Inv(fs)
  {
    && d < |fs.dirs| && |Base(im.name)| <= 11 && im.size == 0
    && var c := FirstFree(fs.vol, 2);
       c < |fs.vol.data| && im.cluster == c as int
       && var v := Claim(fs.vol, c); var dir := fs.dirs[d];
          && WellFormed(v) && IsChain(v, dir) && OneCluster(v, dir, im.name) && Added(v, dir, im, fs'.vol, true)
          && fs'.dirs == fs.dirs[d := MakeRoomIn(v, dir, RequiredSlots(im.name) + 1).chain]
          && fs'.files == fs.files + [FileRec([c], im, d, NewIndex(v, dir, im.name))]
  }

  ghost predicate WrittenVia(v: Volume, r: FileRec, dir: seq<nat>, offset: nat, data: seq<byte>, mid: Volume,
                             v': Volume)
    requires IsFile(v, r.chain, r.im.size) && IsChain(v, dir) && |Base(r.im.name)| <= 11
    requires offset + |data| < 0x1_0000_0000
  {
    FileWritten(v, r.chain, dir, r.im, r.idx, offset, data, mid, v', |data|, Max(r.im.size, offset + |data|))
  }

  ghost predicate WriteStep(fs: FS, f: nat, offset: nat, data: seq<byte>, fs': FS)
    requires Inv(fs)
  {
    && f < |fs.files|
    && var r := fs.files[f];
       assert GoodFile(fs, r) && AllChains(fs)[r.dir] == fs.dirs[r.dir];
       && offset <= r.im.size && offset + |data| < 0x1_0000_0000
       && var g := Extension(fs.vol, r.chain, r.im.size, offset + |data|);
          && g.ok
          && (exists mid :: WrittenVia(fs.vol, r, fs.dirs[r.dir], offset, data, mid, fs'.vol))
          && fs'.dirs == fs.dirs
          && fs'.files == fs.files[f := r.(chain := r.chain + g.added, im := r.im.(size := Max(r.im.size,
              offset + |data|)))]
  }

  ghost predicate TruncateStep(fs: FS, f: nat, fs': FS)
    requires Inv(fs)
  {
    && f < |fs.files|
    && var r := fs.files[f];
       assert GoodFile(fs, r);
       assert forall i :: 0 <= i < |r.chain| ==> IsCluster(fs.vol, r.chain[i]);
       && fs'.vol == Reset(fs.vol, r.chain) && fs'.dirs == fs.dirs
       && fs'.files == fs.files[f := r.(chain := [r.chain[0]], im := r.im.(size := 0))]
  }

  // ----- the files as plain byte sequences -----

  function Contents(fs: FS): (cs: seq<seq<byte>>)
    ensures |cs| == |fs.files|
  {
    seq(|fs.files|, i requires 0 <= i < |fs.files| =>
      Content(fs.vol, fs.files[i].chain, fs.files[i].im.size))
  }

  /** The operation on plain byte sequences. */
  function SpecStep(cs: seq<seq<byte>>, op: Op): seq<seq<byte>> {
    match op
    case Create(_, _) => cs + [[]]
    case WriteAt(f, offset, data) => if f < |cs| && offset <= |cs[f]| then cs[f := Splice(cs[f], offset, data)] else cs
    case Truncate(f) => if f < |cs| then cs[f := []] else cs
  }

  function SpecRun(cs: seq<seq<byte>>, ops: seq<Op>): seq<seq<byte>> {
    if ops == [] then cs else SpecStep(SpecRun(cs, ops[..|ops| - 1]), ops[|ops| - 1])
  }

  // ----- bookkeeping of chains -----

  lemma {:induction false} TotalUpdate(cs: seq<seq<nat>>, i: nat, c: seq<nat>)
    requires i < |cs|
    ensures Total(cs[i := c]) + |cs[i]| == Total(cs) + |c|
  {
    if i > 0 {
      assert cs[i := c][1..] == cs[1..][i - 1 := c];
      TotalUpdate(cs[1..], i - 1, c);
    } else {
      assert cs[i := c][1..] == cs[1..];
    }
  }

  lemma {:induction false} TotalAppend(cs: seq<seq<nat>>, c: seq<nat>)
    ensures Total(cs + [c]) == Total(cs) + |c|
  {
    if cs == [] {
      assert Total([c]) == |c| + Total([]);
    } else {
      assert (cs + [c])[1..] == cs[1..] + [c];
      TotalAppend(cs[1..], c);
    }
  }

  /** One chain replaced, the others kept. */
  lemma ReplaceChain(v: Volume, v': Volume, cs: seq<seq<nat>>, i: nat, c: seq<nat>)
    requires Separate(v, cs) && i < |cs| && WellFormed(v') && IsChain(v', c)
    requires forall j :: 0 <= j < |cs| && j != i ==> IsChain(v', cs[j]) && Disjoint(c, cs[j])
    ensures Separate(v', cs[i := c])
  {
    hide IsChain, WellFormed;
  }

  lemma ApartInPlace(v: Volume, cs: seq<seq<nat>>, i: nat, j: nat)
    requires Separate(v, cs) && i < |cs| && j < |cs| && i != j
    ensures Disjoint(cs[i], cs[j]) && IsChain(v, cs[i]) && IsChain(v, cs[j])
  {
    if j < i { assert Disjoint(cs[j], cs[i]); }
  }

  lemma ChainPlaces(fs: FS)
    requires Inv(fs)
    ensures forall d :: 0 <= d < |fs.dirs| ==> AllChains(fs)[d] == fs.dirs[d]
    ensures forall f :: 0 <= f < |fs.files| ==> AllChains(fs)[|fs.dirs| + f] == fs.files[f].chain
  {
  }

  lemma SameContent(v: Volume, v': Volume, cs: seq<nat>, size: nat)
    requires |v'.data| == |v.data| && Within(cs, |v.data|) && Load(v', cs) == Load(v, cs)
    ensures Content(v', cs, size) == Content(v, cs, size)
  {
  }

  // ----- writing -----

  /** What a step that changes chain `i` only has to establish. */
  ghost predicate OthersKept(v: Volume, v': Volume, cs: seq<seq<nat>>, i: nat, c: seq<nat>)
  {
    forall j :: 0 <= j < |cs| && j != i ==> IsChain(v', cs[j]) && Disjoint(c, cs[j])
  }

  lemma WriteStepFacts(fs: FS, f: nat, offset: nat, data: seq<byte>, fs': FS)
    requires Inv(fs) && WriteStep(fs, f, offset, data, fs')
    ensures f < |fs.files|
    ensures var r := fs.files[f]; var i := |fs.dirs| + f; var all := AllChains(fs);
      && GoodFile(fs, r) && r.dir < |fs.dirs| && offset <= r.im.size && offset + |data| < 0x1_0000_0000
      && var c := r.chain + Extension(fs.vol, r.chain, r.im.size, offset + |data|).added;
         && WellFormed(fs'.vol) && fs'.vol.bpc == fs.vol.bpc && |fs'.vol.data| == |fs.vol.data|
         && IsFile(fs'.vol, c, Max(r.im.size, offset + |data|)) && c[0] == r.chain[0]
         && OthersKept(fs.vol, fs'.vol, all, i, c)
         && |FreeSet(fs'.vol)| + |c| == |FreeSet(fs.vol)| + |r.chain|
         && |Content(fs.vol, r.chain, r.im.size)| == r.im.size as int
         && Content(fs'.vol, c, Max(r.im.size, offset + |data|)) == Splice(Content(fs.vol, r.chain, r.im.size),
             offset, data)
  {
    hide *;
    var mid := WriteStepMid(fs, f, offset, data, fs');
    var r, i, all := fs.files[f], |fs.dirs| + f, AllChains(fs);
    var dir, v, v' := fs.dirs[r.dir], fs.vol, fs'.vol;
    var c := r.chain + Extension(v, r.chain, r.im.size, offset + |data|).added;
    WriteIsSplice(v, r.chain, dir, r.im, r.idx, offset, data, mid, v', |data|, Max(r.im.size, offset + |data|));
    forall j | 0 <= j < |all| && j != i
      ensures IsChain(v', all[j]) && Disjoint(c, all[j])
    {
      OneKept(fs, f, offset, data, mid, v', j);
    }
    OthersAre(v, v', all, i, c);
    OneKept(fs, f, offset, data, mid, v', r.dir);
    ChainStarts(v, r.chain, c, Extension(v, r.chain, r.im.size, offset + |data|).added);
  }

  lemma OthersAre(v: Volume, v': Volume, cs: seq<seq<nat>>, i: nat, c: seq<nat>)
    requires forall j :: 0 <= j < |cs| && j != i ==> IsChain(v', cs[j]) && Disjoint(c, cs[j])
    ensures OthersKept(v, v', cs, i, c)
  {
    hide IsChain, Disjoint;
  }

  lemma ChainStarts(v: Volume, chain: seq<nat>, c: seq<nat>, added: seq<nat>)
    requires IsChain(v, chain) && c == chain + added
    ensures chain != [] && c != [] && c[0] == chain[0]
  {
  }

  /** The volume in the middle of a write step, and what the step starts from. */
  lemma WriteStepMid(fs: FS, f: nat, offset: nat, data: seq<byte>, fs': FS) returns (mid: Volume)
    requires Inv(fs) && WriteStep(fs, f, offset, data, fs')
    ensures f < |fs.files| && |fs.dirs| + f < |AllChains(fs)| && |fs.dirs| <= |AllChains(fs)|
    ensures var r := fs.files[f];
      && GoodFile(fs, r) && r.dir < |fs.dirs| && r.dir != |fs.dirs| + f
      && offset <= r.im.size && offset + |data| < 0x1_0000_0000 && 0 <= Max(r.im.size, offset + |data|)
      && WellFormed(fs.vol) && IsChain(fs.vol, r.chain) && IsFile(fs.vol, r.chain, r.im.size) &&
          IsChain(fs.vol, fs.dirs[r.dir])
      && Disjoint(r.chain, fs.dirs[r.dir]) && |Base(r.im.name)| <= 11
      && Extension(fs.vol, r.chain, r.im.size, offset + |data|).ok
      && WrittenVia(fs.vol, r, fs.dirs[r.dir], offset, data, mid, fs'.vol)
      && FileWritten(fs.vol, r.chain, fs.dirs[r.dir], r.im, r.idx, offset, data, mid, fs'.vol, |data|, Max(r.im.size,
          offset + |data|))
  {
    var r := fs.files[f];
    ChainPlaces(fs);
    assert GoodFile(fs, r);
    ApartInPlace(fs.vol, AllChains(fs), |fs.dirs| + f, r.dir);
    hide AllChains, Separate, IsChain, FileWritten, Base, Extension;
    mid :| WrittenVia(fs.vol, r, fs.dirs[r.dir], offset, data, mid, fs'.vol);
  }

  lemma OneKept(fs: FS, f: nat, offset: nat, data: seq<byte>, mid: Volume, v': Volume, j: nat)
    requires Inv(fs) && f < |fs.files| && GoodFile(fs, fs.files[f]) && j < |AllChains(fs)| && j != |fs.dirs| + f
    requires offset + |data| < 0x1_0000_0000 && IsChain(fs.vol, fs.dirs[fs.files[f].dir])
    requires WrittenVia(fs.vol, fs.files[f], fs.dirs[fs.files[f].dir], offset, data, mid, v')
    ensures var r, o, d := fs.files[f], AllChains(fs)[j], fs.files[f].dir;
      && IsChain(fs.vol, o) && Within(o, |fs.vol.data|)
      && |v'.data| == |fs.vol.data| && v'.bpc == fs.vol.bpc && IsChain(v', o)
      && Disjoint(r.chain + Extension(fs.vol, r.chain, r.im.size, offset + |data|).added, o)
      && (j != d ==> Load(v', o) == Load(fs.vol, o))
  {
    var r, i, all := fs.files[f], |fs.dirs| + f, AllChains(fs);
    ChainPlaces(fs);
    ApartInPlace(fs.vol, all, i, r.dir);
    ApartInPlace(fs.vol, all, i, j);
    if j != r.dir { ApartInPlace(fs.vol, all, r.dir, j); }
    hide Extension, Content, Splice, FreeSet, AllChains, Separate, Inv, IsChain, Base, Load, FileWritten, DirSlots;
    WriteKeepsOthers(fs.vol, r.chain, fs.dirs[r.dir], r.im, r.idx, offset, data, mid, v', |data|,
                     Max(r.im.size, offset + |data|), all[j]);
  }

  /** A step that gives file `f` another chain and size keeps the invariant and the holdings. */
  lemma ReplaceFile(fs: FS, fs': FS, f: nat, c: seq<nat>, size: u32)
    requires Inv(fs) && f < |fs.files| && fs'.dirs == fs.dirs
    requires fs'.files == fs.files[f := fs.files[f].(chain := c, im := fs.files[f].im.(size := size))]
    requires WellFormed(fs'.vol) && fs'.vol.bpc == fs.vol.bpc && IsFile(fs'.vol, c, size)
    requires c[0] == fs.files[f].chain[0]
    requires OthersKept(fs.vol, fs'.vol, AllChains(fs), |fs.dirs| + f, c)
    requires |FreeSet(fs'.vol)| + |c| == |FreeSet(fs.vol)| + |fs.files[f].chain|
    ensures Inv(fs') && Holdings(fs') == Holdings(fs)
  {
    var all, i := AllChains(fs), |fs.dirs| + f;
    ChainPlaces(fs);
    assert AllChains(fs') == all[i := c];
    assert GoodFile(fs, fs.files[f]);
    hide IsChain, WellFormed, FreeSet, AllChains, ClustersFor;
    ReplaceChain(fs.vol, fs'.vol, all, i, c);
    TotalUpdate(all, i, c);
    forall k | 0 <= k < |fs'.files|
      ensures GoodFile(fs', fs'.files[k])
    {
      if k != f { KeptFile(fs, fs', f, c, k); }
    }
  }

  lemma KeptFile(fs: FS, fs': FS, f: nat, c: seq<nat>, k: nat)
    requires Inv(fs) && f < |fs.files| && k < |fs.files| && k != f && |fs'.dirs| == |fs.dirs|
    requires fs'.vol.bpc == fs.vol.bpc
    requires WellFormed(fs'.vol) && OthersKept(fs.vol, fs'.vol, AllChains(fs), |fs.dirs| + f, c)
    ensures GoodFile(fs', fs.files[k])
  {
    hide IsChain, WellFormed, ClustersFor;
    ChainPlaces(fs);
    assert GoodFile(fs, fs.files[k]);
    assert IsChain(fs'.vol, AllChains(fs)[|fs.dirs| + k]);
  }

  lemma {:induction false} WriteStepKeeps(fs: FS, f: nat, offset: nat, data: seq<byte>, fs': FS)
    requires Inv(fs) && WriteStep(fs, f, offset, data, fs')
    ensures Inv(fs') && Holdings(fs') == Holdings(fs)
    ensures Contents(fs') == SpecStep(Contents(fs), WriteAt(f, offset, data))
  {
    WriteStepFacts(fs, f, offset, data, fs');
    var r := fs.files[f];
    var c := r.chain + Extension(fs.vol, r.chain, r.im.size, offset + |data|).added;
    ReplaceFile(fs, fs', f, c, Max(r.im.size, offset + |data|));
    forall k | 0 <= k < |fs.files|
      ensures Contents(fs')[k] == SpecStep(Contents(fs), WriteAt(f, offset, data))[k]
    {
      if k != f { WriteKeepsContent(fs, f, offset, data, fs', k); }
    }
  }

  lemma WriteKeepsContent(fs: FS, f: nat, offset: nat, data: seq<byte>, fs': FS, k: nat)
    requires Inv(fs) && WriteStep(fs, f, offset, data, fs') && k < |fs.files| && k != f
    ensures Content(fs'.vol, fs.files[k].chain, fs.files[k].im.size) == Content(fs.vol, fs.files[k].chain,
        fs.files[k].im.size)
  {
    hide *;
    var mid := WriteStepMid(fs, f, offset, data, fs');
    FilePlace(fs, k);
    OneKept(fs, f, offset, data, mid, fs'.vol, |fs.dirs| + k);
    SameContent(fs.vol, fs'.vol, fs.files[k].chain, fs.files[k].im.size);
  }

  lemma FilePlace(fs: FS, k: nat)
    requires Inv(fs) && k < |fs.files|
    ensures |fs.dirs| + k < |AllChains(fs)| && AllChains(fs)[|fs.dirs| + k] == fs.files[k].chain
    ensures GoodFile(fs, fs.files[k]) && fs.files[k].dir < |fs.dirs|
  {
    ChainPlaces(fs);
    assert GoodFile(fs, fs.files[k]);
  }

  // ----- truncating -----

  lemma {:induction false} TruncateStepKeeps(fs: FS, f: nat, fs': FS)
    requires Inv(fs) && TruncateStep(fs, f, fs')
    ensures Inv(fs') && Holdings(fs') == Holdings(fs)
    ensures Contents(fs') == SpecStep(Contents(fs), Truncate(f))
  {
    var r, c := fs.files[f], [fs.files[f].chain[0]];
    TruncateFacts(fs, f, fs');
    ReplaceFile(fs, fs', f, c, 0);
    forall k | 0 <= k < |fs.files|
      ensures Contents(fs')[k] == SpecStep(Contents(fs), Truncate(f))[k]
    {
      if k != f {
        OtherIsCluster(fs, |fs.dirs| + k);
        LoadFrame(fs.vol, fs'.vol, fs.files[k].chain);
        SameContent(fs.vol, fs'.vol, fs.files[k].chain, fs.files[k].im.size);
      }
    }
  }

  lemma OtherIsCluster(fs: FS, j: nat)
    requires Inv(fs) && j < |AllChains(fs)|
    ensures Within(AllChains(fs)[j], |fs.vol.data|) && |fs.vol.data| <= |fs.vol.fat|
    ensures forall k :: 0 <= k < |fs.files| && j == |fs.dirs| + k ==> AllChains(fs)[j] == fs.files[k].chain
  {
    ChainPlaces(fs);
    assert IsChain(fs.vol, AllChains(fs)[j]) && WellFormed(fs.vol);
    hide *;
    ChainOnVolume(fs.vol, AllChains(fs)[j]);
  }

  lemma ChainOnVolume(v: Volume, o: seq<nat>)
    requires WellFormed(v) && IsChain(v, o)
    ensures Within(o, |v.data|) && |v.data| <= |v.fat|
  {
    assert forall i :: 0 <= i < |o| ==> IsCluster(v, o[i]);
  }

  lemma TruncateFacts(fs: FS, f: nat, fs': FS)
    requires Inv(fs) && TruncateStep(fs, f, fs')
    ensures f < |fs.files|
    ensures var r := fs.files[f]; var c := [r.chain[0]]; var v, v' := fs.vol, fs'.vol;
      && WellFormed(v') && v'.bpc == v.bpc && v'.data == v.data && IsFile(v', c, 0)
      && OthersKept(v, v', AllChains(fs), |fs.dirs| + f, c)
      && |FreeSet(v')| + |c| == |FreeSet(v)| + |r.chain|
  {
    var r, all, i := fs.files[f], AllChains(fs), |fs.dirs| + f;
    ChainPlaces(fs);
    assert GoodFile(fs, r);
    ResetEffect(fs.vol, r.chain);
    ResetFrees(fs.vol, r.chain);
    hide Reset, FreeSet, IsChain, WellFormed, AllChains;
    forall j | 0 <= j < |all| && j != i
      ensures IsChain(fs'.vol, all[j]) && Disjoint([r.chain[0]], all[j])
    {
      ApartInPlace(fs.vol, all, i, j);
      OtherIsCluster(fs, j);
      ApartKept(fs.vol, fs'.vol, r.chain, all[j]);
    }
  }

  lemma ApartKept(v: Volume, v': Volume, cs: seq<nat>, o: seq<nat>)
    requires cs != [] && Disjoint(cs, o) && IsChain(v, o) && |v'.fat| == |v.fat| && |v'.data| == |v.data|
    requires Within(o, |v.data|)
    requires forall c :: 0 <= c < |v.fat| && c !in cs ==> v'.fat[c] == v.fat[c]
    ensures IsChain(v', o) && Disjoint([cs[0]], o)
  {
    assert cs[0] in cs;
    forall i | 0 <= i < |o|
      ensures v'.fat[o[i]] == v.fat[o[i]]
    {
      assert o[i] in o;
    }
    ChainFrame(v, v', o);
  }

  // ----- creating -----

  lemma AppendChain(v: Volume, cs: seq<seq<nat>>, c: seq<nat>)
    requires Separate(v, cs) && IsChain(v, c) && forall j :: 0 <= j < |cs| ==> Disjoint(cs[j], c)
    ensures Separate(v, cs + [c])
  {
    hide IsChain, WellFormed;
  }

  lemma CreateFacts(fs: FS, d: nat, im: Image, fs': FS, j: nat)
    requires Inv(fs) && CreateStep(fs, d, im, fs') && j < |AllChains(fs)|
    ensures d < |fs.dirs| && fs.dirs[d] == AllChains(fs)[d] && FirstFree(fs.vol, 2) in FreeSet(fs.vol)
    ensures var o := AllChains(fs)[j]; var c := FirstFree(fs.vol, 2); var room := fs'.dirs[d];
      && WellFormed(fs'.vol) && fs'.vol.bpc == fs.vol.bpc && |fs'.vol.data| == |fs.vol.data| && Within(o, |fs.vol.data|)
      && IsChain(fs'.vol, room) && IsChain(fs'.vol, [c]) && Disjoint(room, [c]) && Disjoint(o, [c])
      && |FreeSet(fs'.vol)| + |room| + 1 == |FreeSet(fs.vol)| + |fs.dirs[d]|
      && (j != d ==> IsChain(fs'.vol, o) && Disjoint(room, o) && Load(fs'.vol, o) == Load(fs.vol, o))
  {
    var v, c, o := fs.vol, FirstFree(fs.vol, 2), AllChains(fs)[j];
    var dir := fs.dirs[d];
    ChainPlaces(fs);
    FirstFreeIsFree(v);
    assert IsChain(v, o);
    if j != d { ApartInPlace(v, AllChains(fs), d, j); }
    hide Inv, AllChains, FreeSet, IsChain, WellFormed, Added, OneCluster, MakeRoomIn, Load, DirSlots, Claim;
    ClaimFacts(v, c);
    ClaimKeeps(v, c, o);
    ClaimKeeps(v, c, dir);
    AddedFacts(Claim(v, c), dir, im, fs'.vol);
    DisjointSym([c], o);
    DisjointSym([c], dir);
    AddedKeeps(Claim(v, c), dir, im, fs'.vol, [c]);
    if j != d { AddedKeeps(Claim(v, c), dir, im, fs'.vol, o); }
  }

  lemma {:induction false} CreateStepKeeps(fs: FS, d: nat, im: Image, fs': FS)
    requires Inv(fs) && CreateStep(fs, d, im, fs')
    ensures Inv(fs') && Holdings(fs') == Holdings(fs)
    ensures Contents(fs') == SpecStep(Contents(fs), Create(d, im))
  {
    var all, c := AllChains(fs), [FirstFree(fs.vol, 2)];
    hide *;
    CreateShape(fs, d, im, fs');
    CreateFacts(fs, d, im, fs', d);
    forall j | 0 <= j < |all|
      ensures Disjoint(all[j], c) && (j != d ==> IsChain(fs'.vol, all[j]) && Disjoint(fs'.dirs[d], all[j]))
    {
      CreateFacts(fs, d, im, fs', j);
    }
    ReplaceChain(fs.vol, fs'.vol, all, d, fs'.dirs[d]);
    OneChainMore(fs'.vol, all, d, fs'.dirs[d], c);
    TotalUpdate(all, d, fs'.dirs[d]);
    TotalAppend(all[d := fs'.dirs[d]], c);
    forall k | 0 <= k < |fs'.files|
      ensures GoodFile(fs', fs'.files[k])
      ensures k < |Contents(fs')| && k <= |Contents(fs)| && Contents(fs')[k] == (Contents(fs) + [[]])[k]
    {
      ContentsLength(fs, fs');
      CreateKeepsFile(fs, d, im, fs', k);
    }
    CreateEnds(fs, d, im, fs');
  }

  lemma ContentsLength(fs: FS, fs': FS)
    requires |fs'.files| == |fs.files| + 1
    ensures |Contents(fs)| == |fs.files| && |Contents(fs')| == |fs.files| + 1
  {
  }

  lemma OneChainMore(v: Volume, all: seq<seq<nat>>, d: nat, room: seq<nat>, c: seq<nat>)
    requires d < |all| && Separate(v, all[d := room]) && IsChain(v, c) && Disjoint(room, c)
    requires forall j :: 0 <= j < |all| ==> Disjoint(all[j], c)
    ensures Separate(v, all[d := room] + [c])
  {
    hide IsChain, WellFormed, Disjoint;
    AppendChain(v, all[d := room], c);
  }

  lemma CreateEnds(fs: FS, d: nat, im: Image, fs': FS)
    requires |fs'.files| == |fs.files| + 1 && WellFormed(fs.vol) && WellFormed(fs'.vol)
    requires Separate(fs'.vol, AllChains(fs')) && forall k :: 0 <= k < |fs'.files| ==> GoodFile(fs', fs'.files[k])
    requires |FreeSet(fs'.vol)| + Total(AllChains(fs')) == |FreeSet(fs.vol)| + Total(AllChains(fs))
    requires |Contents(fs')| == |fs'.files| && |Contents(fs)| == |fs.files|
    requires forall k :: 0 <= k < |fs'.files| ==> Contents(fs')[k] == (Contents(fs) + [[]])[k]
    ensures Inv(fs') && Holdings(fs') == Holdings(fs)
    ensures Contents(fs') == SpecStep(Contents(fs), Create(d, im))
  {
    hide AllChains, FreeSet, Separate, GoodFile, Total, WellFormed, Contents;
  }

  lemma CreateShape(fs: FS, d: nat, im: Image, fs': FS)
    requires Inv(fs) && CreateStep(fs, d, im, fs')
    ensures d < |fs.dirs| && |fs'.dirs| == |fs.dirs| && |fs'.files| == |fs.files| + 1
    ensures AllChains(fs') == AllChains(fs)[d := fs'.dirs[d]] + [[FirstFree(fs.vol, 2)]]
  {
    hide Added, OneCluster, MakeRoomIn;
  }

  lemma CreateKeepsFile(fs: FS, d: nat, im: Image, fs': FS, k: nat)
    requires Inv(fs) && CreateStep(fs, d, im, fs') && k < |fs'.files|
    ensures GoodFile(fs', fs'.files[k])
    ensures Contents(fs')[k] == (Contents(fs) + [[]])[k]
  {
    hide Added, OneCluster, MakeRoomIn, FreeSet, IsChain, WellFormed, Load;
    ChainPlaces(fs);
    CreateFacts(fs, d, im, fs', d);
    if k < |fs.files| {
      assert GoodFile(fs, fs.files[k]);
      CreateFacts(fs, d, im, fs', |fs.dirs| + k);
      SameContent(fs.vol, fs'.vol, fs.files[k].chain, fs.files[k].im.size);
    } else {
      EmptyContent(fs'.vol, fs'.files[k].chain);
    }
  }

  lemma EmptyContent(v: Volume, cs: seq<nat>)
    ensures Content(v, cs, 0) == []
  {
  }

  // ----- runs -----

  ghost predicate Run(trace: seq<FS>, ops: seq<Op>)
  {
    && |trace| == |ops| + 1
    && Inv(trace[0])
    && forall i :: 0 <= i < |ops| ==> Inv(trace[i]) ==> Step(trace[i], ops[i], trace[i + 1])
  }

  /** One step keeps the invariant and the holdings, and acts on the files as on byte sequences. */
  lemma StepRefines(fs: FS, op: Op, fs': FS)
    requires Inv(fs) && Step(fs, op, fs')
    ensures Inv(fs') && Holdings(fs') == Holdings(fs) && Contents(fs') == SpecStep(Contents(fs), op)
  {
    hide Inv, Contents, Holdings, SpecStep, CreateStep, WriteStep, TruncateStep;
    match op
    case Create(d, im) => CreateStepKeeps(fs, d, im, fs');
    case WriteAt(f, offset, data) => WriteStepKeeps(fs, f, offset, data, fs');
    case Truncate(f) => TruncateStepKeeps(fs, f, fs');
  }

  /** Over every failure-free run the files refine plain byte sequences, chains stay
      disjoint and of the right length, and no cluster is lost or made. */
  lemma {:induction false} RunRefines(trace: seq<FS>, ops: seq<Op>, n: nat)
    requires Run(trace, ops) && n <= |ops|
    ensures Inv(trace[n]) && Holdings(trace[n]) == Holdings(trace[0])
    ensures Contents(trace[n]) == SpecRun(Contents(trace[0]), ops[..n])
  {
    hide Inv, Contents, Holdings, SpecStep, Step;
    if n > 0 {
      RunRefines(trace, ops, n - 1);
      StepRefines(trace[n - 1], ops[n - 1], trace[n]);
      assert ops[..n][..n - 1] == ops[..n - 1];
    }
  }
}
