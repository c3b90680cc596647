/** What claiming a cluster and adding an entry do to the volume: the table, the free clusters and every
    other chain. */
module Fat32Claim {
  import opened Fat32Volume
  import opened Fat32Entries
  import opened Fat32Dir
  import opened Fat32Write
  import opened Fat32AddEntry
  import opened Fat32WriteFile

  /** A cluster allocated for a new file. */
  function Claim(v: Volume, c: nat): Volume
    requires c < |v.data| <= |v.fat|
  {
    SetNext(Take(v, c), c, ENDOFCHAIN)
  }

  lemma DisjointSym(a: seq<nat>, b: seq<nat>)
    requires Disjoint(a, b)
    ensures Disjoint(b, a)
  {
  }

  lemma ClaimFacts(v: Volume, c: nat)
    requires WellFormed(v) && c in FreeSet(v)
    ensures var v1 := Claim(v, c);
      && WellFormed(v1) && v1.bpc == v.bpc && |v1.data| == |v.data| && |v1.fat| == |v.fat| && IsChain(v1, [c])
      && |FreeSet(v1)| + 1 == |FreeSet(v)|
      && (forall d :: 0 <= d < |v.fat| && d != c ==> v1.fat[d] == v.fat[d])
      && (forall d :: 0 <= d < |v.data| && d != c ==> v1.data[d] == v.data[d])
  {
    var v1 := Claim(v, c);
    assert v1.fat[c] == ENDOFCHAIN;
    assert FreeSet(v1) == FreeSet(v) - {c};
  }

  lemma ClaimKeeps(v: Volume, c: nat, o: seq<nat>)
    requires WellFormed(v) && c in FreeSet(v) && IsChain(v, o)
    ensures IsChain(Claim(v, c), o) && Disjoint([c], o) && Within(o, |v.data|)
    ensures Load(Claim(v, c), o) == Load(v, o) && DirSlots(Claim(v, c), o) == DirSlots(v, o)
  {
    ClaimFacts(v, c);
    ChainIsInUse(v, o);
    forall i | 0 <= i < |o|
      ensures IsCluster(v, o[i]) && o[i] != c
    {
      assert o[i] in o;
    }
    hide Claim, FreeSet;
    ChainFrame(v, Claim(v, c), o);
    LoadFrame(v, Claim(v, c), o);
    DirFrame(v, Claim(v, c), o);
  }

  // ----- adding an entry -----

  /** Adding an entry changes the directory's chain only. */
  lemma AddedFacts(v: Volume, dir: seq<nat>, im: Image, v': Volume)
    requires WellFormed(v) && IsChain(v, dir) && |Base(im.name)| <= 11 && OneCluster(v, dir, im.name)
    requires Added(v, dir, im, v', true)
    ensures var room := MakeRoomIn(v, dir, RequiredSlots(im.name) + 1);
      && room.ok && room.vol == Enlarged(v, dir, |room.chain|).vol &&
          room.chain == dir + Enlarged(v, dir, |room.chain|).added
      && WellFormed(v') && v'.bpc == v.bpc && |v'.data| == |v.data|
      && IsChain(v', room.chain) && room.chain[0] == dir[0]
      && |FreeSet(v')| + |room.chain| == |FreeSet(v)| + |dir|
      && v'.fat == room.vol.fat && |room.vol.data| == |v.data|
      && (forall c :: 0 <= c < |v.data| && c !in room.chain ==> v'.data[c] == room.vol.data[c])
  {
    hide *;
    var needed := AddedIs(v, dir, im, v');
    var room := MakeRoomIn(v, dir, needed);
    RoomIsExtension(v, dir, needed);
    EnlargeExtends(v, dir, |room.chain|);
    SameTableSameFree(room.vol, v');
    ChainHead(v, dir, room.chain, Enlarged(v, dir, |room.chain|).added);
    ChainFrame(room.vol, v', room.chain);
  }

  lemma AddedIs(v: Volume, dir: seq<nat>, im: Image, v': Volume) returns (needed: nat)
    requires WellFormed(v) && IsChain(v, dir) && |Base(im.name)| <= 11
    requires Added(v, dir, im, v', true)
    ensures needed == RequiredSlots(im.name) + 1
    ensures var room := MakeRoomIn(v, dir, needed);
      && room.ok && Within(room.chain, |room.vol.data|)
      && v'.bpc == room.vol.bpc && v'.fat == room.vol.fat && |v'.data| == |room.vol.data|
      && forall c :: 0 <= c < |room.vol.data| ==> |v'.data[c]| == |room.vol.data[c]| && (c !in room.chain ==>
          v'.data[c] == room.vol.data[c])
  {
    hide MakeRoomIn, Written, DirSlots, RequiredSlots, IsChain, WellFormed;
    needed := RequiredSlots(im.name) + 1;
  }

  lemma SameTableSameFree(v: Volume, v': Volume)
    requires WellFormed(v) && v'.bpc == v.bpc && v'.fat == v.fat && |v'.data| == |v.data|
    requires forall c :: 0 <= c < |v.data| ==> |v'.data[c]| == |v.data[c]|
    ensures WellFormed(v') && FreeSet(v') == FreeSet(v) && |v.data| <= |v.fat|
  {
  }

  lemma ChainHead(v: Volume, dir: seq<nat>, chain: seq<nat>, added: seq<nat>)
    requires IsChain(v, dir) && chain == dir + added
    ensures chain != [] && chain[0] == dir[0]
  {
  }

  lemma RoomIsExtension(v: Volume, dir: seq<nat>, needed: nat)
    requires WellFormed(v) && IsChain(v, dir) && needed > 0 && MakeRoomIn(v, dir, needed).ok
    ensures var room := MakeRoomIn(v, dir, needed);
      room.vol == Enlarged(v, dir, |room.chain|).vol && room.chain == dir + Enlarged(v, dir, |room.chain|).added
  {
    var i := LeastFree(DirSlots(v, dir), needed, 0);
    if i < |DirSlots(v, dir)| {
      assert dir + [] == dir;
    } else {
      GrowFacts(v, dir, 1);
    }
  }

  lemma AddedKeeps(v: Volume, dir: seq<nat>, im: Image, v': Volume, o: seq<nat>)
    requires WellFormed(v) && IsChain(v, dir) && |Base(im.name)| <= 11 && OneCluster(v, dir, im.name)
    requires Added(v, dir, im, v', true) && IsChain(v, o) && Disjoint(dir, o)
    ensures IsChain(v', o) && Disjoint(MakeRoomIn(v, dir, RequiredSlots(im.name) + 1).chain, o)
    ensures Within(o, |v.data|) && |v'.data| == |v.data| && Load(v', o) == Load(v, o)
    ensures DirSlots(v', o) == DirSlots(v, o)
  {
    AddedFacts(v, dir, im, v');
    var room := MakeRoomIn(v, dir, RequiredSlots(im.name) + 1);
    EnlargeKeeps(v, dir, |room.chain|, o);
    assert forall i :: 0 <= i < |o| ==> o[i] in o;
    hide MakeRoomIn, Added, Load, DirSlots, Enlarged, RequiredSlots, OneCluster;
    ChainFrame(room.vol, v', o);
    LoadFrame(room.vol, v', o);
    DirFrame(room.vol, v', o);
  }
}
