/** The directory iterator: `createFAT32ClusterIterator` and `nextFAT32Entry`. */
module Fat32Iterate {
  import opened Wrappers
  import opened Bytes
  import opened Fat32Volume
  import opened Fat32Mount
  import opened Fat32Names
  import opened Fat32Scan
  import opened Fat32Dir

  /** Index of the first slot of the directory's `k`-th cluster. */
  ghost function ClusterBase(v: Volume, k: nat): nat { k * PerCluster(v) }

  class FAT32Iterator {
    var startCluster: nat
    var cluster: nat
    var entryIdx: nat
    var localIdx: nat
    var clusterBuf: seq<byte>
    const lfnBuf: array<byte>
    var lfn: bool
    /** The clusters iterated over and how many are behind; `slots` is their content. */
    ghost const chain: seq<nat>
    ghost const slots: seq<Slot>
    ghost var k: nat

    ghost predicate Valid(v: Volume)
      reads this
    {
      && lfnBuf.Length == LFN_BUFFER && WellFormed(v) && AllFit(slots)
      && (if chain == [] then slots == [] else IsChain(v, chain) && slots == DirSlots(v, chain))
      && k <= |chain| && localIdx <= entryIdx <= |slots|
      && if k < |chain| then InCluster(v) else cluster >= ENDOFCHAIN && entryIdx == |slots|
    }

    /** The position in the `k`-th cluster, whose content the iterator holds. */
    ghost predicate InCluster(v: Volume)
      requires k < |chain| && localIdx <= entryIdx
      reads this
    {
      && cluster == chain[k] && IsCluster(v, cluster) && cluster < ENDOFCHAIN
      && localIdx <= PerCluster(v) && |clusterBuf| == v.bpc
      && entryIdx == ClusterBase(v, k) + localIdx && HoldsSlots(clusterBuf, entryIdx - localIdx, slots)
    }

    ghost function State(): (st: ScanState)
      reads this, lfnBuf
      requires lfnBuf.Length == LFN_BUFFER
    {
      ScanState(lfnBuf[..], lfn)
    }

    /** What the iterator has still to yield. */
    ghost function Rest(): seq<(nat, Entry)>
      reads this, lfnBuf
      requires lfnBuf.Length == LFN_BUFFER && entryIdx <= |slots| && AllFit(slots)
    {
      Scan(slots[entryIdx..], State(), entryIdx)
    }

    constructor (mount: FAT32Mount, startCluster: nat, ghost chain: seq<nat>)
      requires mount.Valid()
      requires if startCluster >= ENDOFCHAIN then chain == []
               else IsChain(mount.Vol(), chain) && chain[0] == startCluster && AllFit(DirSlots(mount.Vol(), chain))
      ensures Valid(mount.Vol()) && fresh(lfnBuf) && this.chain == chain && this.startCluster == startCluster
      ensures entryIdx == 0 && !lfn
    {
      this.startCluster, cluster, entryIdx, localIdx, lfn := startCluster, startCluster, 0, 0, false;
      lfnBuf := new byte[LFN_BUFFER];
      this.chain := chain;
      slots := if chain == [] then [] else DirSlots(mount.Vol(), chain);
      k := 0;
      clusterBuf := [];
      new;
      if startCluster < ENDOFCHAIN {
        assert IsCluster(mount.Vol(), chain[0]);
        clusterBuf := mount.ReadCluster(startCluster);
        ClusterIsPartOfDir(mount.Vol(), chain, 0);
      }
    }

    /** Scans on within the current cluster. */
    method NextInCluster(mount: FAT32Mount, ghost v: Volume) returns (entry: Option<(nat, Entry)>)
      requires Valid(v) && k < |chain| && mount.bytesPerCluster == v.bpc
      modifies this`entryIdx, this`localIdx, this`lfn, lfnBuf
      ensures Valid(v)
      ensures entry.Some? ==> old(Rest()) == [entry.value] + Rest()
      ensures entry.None? ==> old(Rest()) == Rest() && localIdx == PerCluster(v)
    {
      hide WellFormed, IsChain, DirSlots, ParseSlot, Scan, ClusterBase;
      var entriesPerCluster := mount.bytesPerCluster / ENTRY_SIZE;
      ghost var rest := Rest();
      while localIdx < entriesPerCluster
        invariant Valid(v) && Rest() == rest
        decreases entriesPerCluster - localIdx
      {
        var raw := SlotAt(clusterBuf, localIdx);
        assert raw == slots[entryIdx];
        ScanStep(slots, entryIdx, State());
        var found, lfn' := ParseEntry(raw, lfnBuf, lfn);
        localIdx := localIdx + 1;
        entryIdx := entryIdx + 1;
        lfn := lfn';
        if found.Some? {
          return Some((entryIdx - 1, found.value));
        }
      }
      entry := None;
    }

    /** `nextFAT32Entry`: yields the entries of the scan in order, `None` when there are no more. */
    method Next(mount: FAT32Mount) returns (entry: Option<(nat, Entry)>)
      requires mount.Valid() && Valid(mount.Vol())
      modifies this`entryIdx, this`localIdx, this`lfn, this`cluster, this`clusterBuf, this`k, lfnBuf
      ensures mount.Valid() && Valid(mount.Vol())
      ensures entry.Some? ==> old(Rest()) == [entry.value] + Rest()
      ensures entry.None? ==> old(Rest()) == []
    {
      hide mount.Vol, mount.Valid, WellFormed, IsChain, DirSlots, HoldsSlots, ClusterBase, PerCluster;
      ghost var v := mount.Vol();
      ghost var rest := Rest();
      while cluster < ENDOFCHAIN
        invariant mount.Valid() && mount.Vol() == v && Valid(v) && Rest() == rest
        decreases |chain| - k
      {
        entry := NextInCluster(mount, v);
        if entry.Some? { return; }
        ghost var here := entryIdx;
        NextCluster(mount);
        assert entryIdx == here;
      }
      assert slots[entryIdx..] == [];
      entry := None;
    }

    /** Moves on to the next cluster of the chain. */
    method NextCluster(mount: FAT32Mount)
      requires mount.Valid() && Valid(mount.Vol()) && k < |chain| && localIdx == PerCluster(mount.Vol())
      modifies this`localIdx, this`cluster, this`clusterBuf, this`k
      ensures mount.Valid() && Valid(mount.Vol()) && k == old(k) + 1
    {
      hide mount.Vol, mount.Valid, DirSlots, HoldsSlots, AllFit, WellFormed, IsChain, ClusterBase;
      StepOver(mount.Vol(), chain, k);
      cluster := mount.GetNextCluster(cluster);
      localIdx := 0;
      if cluster < ENDOFCHAIN {
        clusterBuf := mount.ReadCluster(cluster);
      }
      k := k + 1;
    }
  }

  lemma StepOver(v: Volume, chain: seq<nat>, k: nat)
    requires WellFormed(v) && IsChain(v, chain) && k < |chain|
    ensures IsCluster(v, chain[k]) && |v.data| <= |v.fat|
    ensures ClusterBase(v, k + 1) == ClusterBase(v, k) + PerCluster(v)
    ensures k + 1 == |chain| ==> Next(v, chain[k]) >= ENDOFCHAIN && ClusterBase(v, k + 1) == |DirSlots(v, chain)|
    ensures k + 1 < |chain| ==>
      && Next(v, chain[k]) == chain[k + 1] < ENDOFCHAIN && IsCluster(v, chain[k + 1])
      && HoldsSlots(v.data[chain[k + 1]], ClusterBase(v, k + 1), DirSlots(v, chain))
  {
    assert IsCluster(v, chain[k]);
    RowsAreUniform(v, chain);
    MulStep(k + 1, PerCluster(v));
    if k + 1 < |chain| { ClusterIsPartOfDir(v, chain, k + 1); }
  }

  lemma ScanStep(slots: seq<Slot>, i: nat, st: ScanState)
    requires i < |slots| && AllFit(slots) && |st.buf| == LFN_BUFFER
    ensures FitsBuffer(slots[i])
    ensures var r := ParseSlot(slots[i], st);
      Scan(slots[i..], st, i) == (if r.1.Some? then [(i, r.1.value)] else []) + Scan(slots[i + 1..], r.0, i + 1)
  {
    hide ParseSlot;
    assert slots[i..][1..] == slots[i + 1..];
  }
}
