/** `createFAT32Entry`: after it, lookup finds the new entry, and still finds every
    other one. */
module Fat32Create {
  import opened Wrappers
  import opened Bytes
  import opened Fat32Volume
  import opened Fat32Names
  import opened Fat32Scan
  import opened Fat32Entries
  import opened Fat32Aliases
  import opened Fat32Dir
  import opened Fat32Write
  import opened Fat32AddEntry
  import opened Fat32Path
  import opened Fat32Claim

  // ----- listings with one more entry -----

  lemma {:induction false} MatchInAppend(a: seq<(nat, Entry)>, b: seq<(nat, Entry)>, name: seq<byte>)
    ensures FirstMatch(a + b, name) == if FirstMatch(a, name).Some? then FirstMatch(a, name) else FirstMatch(b, name)
  {
    if a == [] {
      assert a + b == b;
    } else {
      assert (a + b)[1..] == a[1..] + b;
      MatchInAppend(a[1..], b, name);
    }
  }

  lemma MatchWithOneMore(before: seq<(nat, Entry)>, after: seq<(nat, Entry)>, e: (nat, Entry), name: seq<byte>)
    requires OneMore(before, after, e)
    ensures !SameName(e.1.name, name) ==> FirstMatch(after, name) == FirstMatch(before, name)
    ensures SameName(e.1.name, name) && FirstMatch(before, name).None? ==> FirstMatch(after, name) == Some(e)
    ensures FirstMatch(after, name) == Some(e) || FirstMatch(after, name) == FirstMatch(before, name)
  {
    var i :| 0 <= i <= |before| && after == before[..i] + [e] + before[i..];
    assert before == before[..i] + before[i..];
    MatchInAppend(before[..i], before[i..], name);
    MatchInAppend(before[..i], [e], name);
    MatchInAppend(before[..i] + [e], before[i..], name);
    OnlyMatch(e, name);
  }

  ghost predicate InOrder(listing: seq<(nat, Entry)>) {
    forall i, j :: 0 <= i < j < |listing| ==> listing[i].0 < listing[j].0
  }

  lemma {:induction false} ScanInOrder(slots: seq<Slot>, st: ScanState, base: nat)
    requires |st.buf| == LFN_BUFFER && AllFit(slots)
    ensures var l := Scan(slots, st, base); InOrder(l) && forall i :: 0 <= i < |l| ==> base <= l[i].0
    decreases |slots|
  {
    if slots != [] {
      hide ParseSlot;
      ScanInOrder(slots[1..], ParseSlot(slots[0], st).0, base + 1);
    }
  }

  /** Of two entries of like names the one that comes first in the directory is found. */
  lemma FirstOfTwo(before: seq<(nat, Entry)>, after: seq<(nat, Entry)>, e: (nat, Entry), name: seq<byte>)
    requires OneMore(before, after, e) && InOrder(after) && SameName(e.1.name, name)
    ensures var m := FirstMatch(before, name);
      FirstMatch(after, name) == if m.None? || e.0 < m.value.0 then Some(e) else m
  {
    hide FirstMatch, SameName;
    var i :| 0 <= i <= |before| && after == before[..i] + [e] + before[i..];
    assert before == before[..i] + before[i..];
    MatchInAppend(before[..i], before[i..], name);
    MatchInAppend(before[..i], [e], name);
    MatchInAppend(before[..i] + [e], before[i..], name);
    OnlyMatch(e, name);
    assert after[i] == e;
    var m := FirstMatch(before, name);
    if m.Some? {
      if FirstMatch(before[..i], name).Some? {
        var k :| 0 <= k < i && before[..i][k] == m.value;
        assert after[k] == m.value;
      } else {
        var k :| 0 <= k < |before| - i && before[i..][k] == m.value;
        assert after[i + 1 + k] == m.value;
      }
    }
  }

  lemma OnlyMatch(e: (nat, Entry), name: seq<byte>)
    ensures FirstMatch([e], name) == if SameName(e.1.name, name) then Some(e) else None
  {
    assert [e][1..] == [];
  }

  lemma {:induction false} NoMatchAlike(listing: seq<(nat, Entry)>, a: seq<byte>, b: seq<byte>)
    requires SameName(a, b)
    ensures FirstMatch(listing, a) == FirstMatch(listing, b)
  {
    if listing != [] { NoMatchAlike(listing[1..], a, b); }
  }

  // ----- the tree after a creation -----

  ghost predicate Apart(dirs: map<nat, seq<nat>>)
  {
    forall a, b :: a in dirs && b in dirs && a != b ==> Disjoint(dirs[a], dirs[b])
  }

  /** A successful creation: cluster `c` is claimed for the new entry, whose slots are
      added to directory `p`. */
  ghost predicate Creation(v: Volume, dirs: map<nat, seq<nat>>, p: nat, c: nat, im: Image, v': Volume)
  {
    && AreDirs(v, dirs) && Apart(dirs) && p in dirs && c in FreeSet(v) && im.cluster == c as int
    && Nameable(im.name) && im.attr != LONG_NAME
    && WellFormed(Claim(v, c)) && IsChain(Claim(v, c), dirs[p]) && OneCluster(Claim(v, c), dirs[p], im.name)
    && Added(Claim(v, c), dirs[p], im, v', true)
  }

  ghost function DirChain(v: Volume, dirs: map<nat, seq<nat>>, p: nat, c: nat, im: Image, v': Volume): seq<nat>
    requires Creation(v, dirs, p, c, im, v')
  {
    MakeRoomIn(Claim(v, c), dirs[p], RequiredSlots(im.name) + 1).chain
  }

  /** The directories afterwards: the parent's chain may have grown, and a new directory is one. */
  ghost function DirsAfter(v: Volume, dirs: map<nat, seq<nat>>, p: nat, c: nat, im: Image, v': Volume)
    : map<nat, seq<nat>>
    requires Creation(v, dirs, p, c, im, v')
  {
    var grown := dirs[p := DirChain(v, dirs, p, c, im, v')];
    if IsDirectory(im.attr) then grown[c := [c]] else grown
  }

  lemma OtherDirKept(v: Volume, dirs: map<nat, seq<nat>>, p: nat, c: nat, im: Image, v': Volume, d: nat)
    requires Creation(v, dirs, p, c, im, v') && d in dirs && d != p
    ensures Within(dirs[d], |v.data|) && Within(dirs[d], |v'.data|)
    ensures IsDir(v, d, dirs[d]) && IsDir(v', d, dirs[d]) && Listing(v', dirs[d]) == Listing(v, dirs[d])
    ensures Disjoint(DirChain(v, dirs, p, c, im, v'), dirs[d]) && c !in dirs[d]
  {
    assert IsDir(v, d, dirs[d]) && Disjoint(dirs[p], dirs[d]) && WellFormed(v);
    hide *;
    DirIsChain(v, d, dirs[d]);
    ClaimKeeps(v, c, dirs[d]);
    CreationParts(v, dirs, p, c, im, v');
    AddedKeeps(Claim(v, c), dirs[p], im, v', dirs[d]);
    SameListing(v, v', d, dirs[d], c);
  }

  lemma DirIsChain(v: Volume, d: nat, chain: seq<nat>)
    requires IsDir(v, d, chain)
    ensures IsChain(v, chain)
  {
  }

  lemma SameListing(v: Volume, v': Volume, d: nat, chain: seq<nat>, c: nat)
    requires IsDir(v, d, chain) && IsChain(v', chain) && |v'.data| == |v.data| && Within(chain, |v.data|)
    requires DirSlots(v', chain) == DirSlots(v, chain) && Disjoint([c], chain)
    ensures IsDir(v', d, chain) && Listing(v', chain) == Listing(v, chain) && c !in chain
  {
    assert c in [c];
  }

  lemma CreationParts(v: Volume, dirs: map<nat, seq<nat>>, p: nat, c: nat, im: Image, v': Volume)
    requires Creation(v, dirs, p, c, im, v')
    ensures WellFormed(v) && c in FreeSet(v) && c < |v.data| <= |v.fat| && c < ENDOFCHAIN
    ensures IsDir(v, p, dirs[p]) && IsChain(v, dirs[p])
    ensures WellFormed(Claim(v, c)) && IsChain(Claim(v, c), dirs[p]) && |Base(im.name)| <= 11
    ensures Claim(v, c).data[c] == Zeros(v.bpc) && |Claim(v, c).data| == |v.data|
    ensures OneCluster(Claim(v, c), dirs[p], im.name) && Added(Claim(v, c), dirs[p], im, v', true)
    ensures DirChain(v, dirs, p, c, im, v') == MakeRoomIn(Claim(v, c), dirs[p], RequiredSlots(im.name) + 1).chain
  {
    hide Added, OneCluster, MakeRoomIn, RequiredSlots;
  }

  /** The parent lists exactly one more entry. */
  lemma ParentListsNew(v: Volume, dirs: map<nat, seq<nat>>, p: nat, c: nat, im: Image, v': Volume)
    requires Creation(v, dirs, p, c, im, v')
    ensures var chain := DirChain(v, dirs, p, c, im, v'); var idx := NewIndex(Claim(v, c), dirs[p], im.name);
      && IsDir(v, p, dirs[p]) && Within(dirs[p], |v.data|) && Within(chain, |v'.data|)
      && IsDir(v', p, chain) && idx < |DirSlots(v', chain)|
      && OneMore(Listing(v, dirs[p]), Listing(v', chain), (idx, EntryOf(im, DirSlots(v', chain)[idx])))
  {
    CreationParts(v, dirs, p, c, im, v');
    ClaimKeeps(v, c, dirs[p]);
    AddedFacts(Claim(v, c), dirs[p], im, v');
    hide MakeRoomIn, RequiredSlots, Added, OneCluster, Scan, DirSlots, CleanDir, EntryOf, OneMore, IsChain,
      WellFormed, Claim;
    NewEntryIsFound(Claim(v, c), dirs[p], im, v', ScanState(Zeros(LFN_BUFFER), false));
  }

  /** A new directory is empty. */
  lemma NewDirIsEmpty(v: Volume, dirs: map<nat, seq<nat>>, p: nat, c: nat, im: Image, v': Volume)
    requires Creation(v, dirs, p, c, im, v')
    ensures Within([c], |v'.data|) && IsDir(v', c, [c]) && Listing(v', [c]) == [] && c !in dirs
  {
    hide *;
    CreationParts(v, dirs, p, c, im, v');
    CreationTree(v, dirs, p, c, im, v');
    ClaimKeeps(v, c, dirs[p]);
    ClaimFacts(v, c);
    DisjointSym([c], dirs[p]);
    FreshIsNoDir(v, dirs, c);
    AddedKeeps(Claim(v, c), dirs[p], im, v', [c]);
    OneRowDir(Claim(v, c), c);
    EmptyDir(v', c, v.bpc);
  }

  lemma EmptyDir(v: Volume, c: nat, bpc: nat)
    requires c < ENDOFCHAIN && IsChain(v, [c]) && Within([c], |v.data|) && DirSlots(v, [c]) == AsSlots(Zeros(bpc))
    ensures IsDir(v, c, [c]) && Listing(v, [c]) == []
  {
    hide IsChain, DirSlots, AsSlots;
    ZeroSlots(Zeros(bpc));
    EmptySlotsAreClean(AsSlots(Zeros(bpc)));
    FreeSlotsAreSilent(AsSlots(Zeros(bpc)), ScanState(Zeros(LFN_BUFFER), false), 0);
  }

  lemma FreshIsNoDir(v: Volume, dirs: map<nat, seq<nat>>, c: nat)
    requires AreDirs(v, dirs) && c in FreeSet(v)
    ensures c !in dirs
  {
    forall d | d in dirs
      ensures d !in FreeSet(v)
    {
      assert IsDir(v, d, dirs[d]);
      ChainIsInUse(v, dirs[d]);
      assert dirs[d][0] in dirs[d];
    }
  }

  /** The new entry, with the index of its 8.3 slot, as it reads back. */
  ghost function NewEntry(v: Volume, dirs: map<nat, seq<nat>>, p: nat, c: nat, im: Image, v': Volume): (nat, Entry)
    requires Creation(v, dirs, p, c, im, v')
  {
    CreationParts(v, dirs, p, c, im, v');
    ParentListsNew(v, dirs, p, c, im, v');
    var idx := NewIndex(Claim(v, c), dirs[p], im.name);
    (idx, EntryOf(im, DirSlots(v', DirChain(v, dirs, p, c, im, v'))[idx]))
  }

  /** It has the cluster, the attributes and the size asked for. It is found again under the name asked for
      exactly when the parent directory leaves that name its plain alias, or long-name slots are written. */
  lemma NewEntryName(v: Volume, dirs: map<nat, seq<nat>>, p: nat, c: nat, im: Image, v': Volume)
    requires Creation(v, dirs, p, c, im, v')
    ensures p in dirs && IsDir(v, p, dirs[p]) && Within(dirs[p], |v.data|) && |Base(im.name)| <= 11
    ensures var (idx, e) := NewEntry(v, dirs, p, c, im, v'); var slots := DirSlots(v, dirs[p]);
      && e.cluster == im.cluster == c as int && e.attr == im.attr && e.size == im.size
      && SameName(e.name, StoredAs(slots, im.name))
      && (SameName(e.name, im.name) <==> FoundAgain(slots, im.name))
      && (e.name == im.name <==> FoundAgain(slots, im.name) && KeepsCase(SlotBefore(slots, idx), im.name))
  {
    hide *;
    CreationParts(v, dirs, p, c, im, v');
    CreationTree(v, dirs, p, c, im, v');
    ParentListsNew(v, dirs, p, c, im, v');
    ClaimKeeps(v, c, dirs[p]);
    AddedKeepsName(Claim(v, c), dirs[p], im, v');
    NewEntryIs(v, dirs, p, c, im, v');
  }

  lemma NewEntryIs(v: Volume, dirs: map<nat, seq<nat>>, p: nat, c: nat, im: Image, v': Volume)
    requires Creation(v, dirs, p, c, im, v') && WellFormed(Claim(v, c)) && p in dirs && IsChain(Claim(v, c), dirs[p])
    requires var chain := DirChain(v, dirs, p, c, im, v');
      Within(chain, |v'.data|) && NewIndex(Claim(v, c), dirs[p], im.name) < |DirSlots(v', chain)|
    ensures var idx := NewIndex(Claim(v, c), dirs[p], im.name); var e := NewEntry(v, dirs, p, c, im, v');
      && e == (idx, EntryOf(im, DirSlots(v', DirChain(v, dirs, p, c, im, v'))[idx]))
      && e.1.cluster == im.cluster && e.1.attr == im.attr && e.1.size == im.size
  {
    hide Creation, Claim, NewIndex, DirChain, DirSlots, IsChain, WellFormed, RequiredSlots, ShortName;
  }

  lemma ParentGains(v: Volume, dirs: map<nat, seq<nat>>, p: nat, c: nat, im: Image, v': Volume)
    requires Creation(v, dirs, p, c, im, v')
    ensures var chain := DirChain(v, dirs, p, c, im, v');
      && IsDir(v, p, dirs[p]) && Within(dirs[p], |v.data|) && Within(chain, |v'.data|) && IsDir(v', p, chain)
      && OneMore(Listing(v, dirs[p]), Listing(v', chain), NewEntry(v, dirs, p, c, im, v'))
  {
    hide *;
    CreationParts(v, dirs, p, c, im, v');
    CreationTree(v, dirs, p, c, im, v');
    ParentListsNew(v, dirs, p, c, im, v');
    NewEntryIs(v, dirs, p, c, im, v');
  }

  lemma DirsAfterAt(v: Volume, dirs: map<nat, seq<nat>>, p: nat, c: nat, im: Image, v': Volume, d: nat)
    requires Creation(v, dirs, p, c, im, v') && c !in dirs
    ensures var dirs' := DirsAfter(v, dirs, p, c, im, v');
      && (d in dirs' <==> d in dirs || (d == c && IsDirectory(im.attr)))
      && (d in dirs ==> dirs'[d] == if d == p then DirChain(v, dirs, p, c, im, v') else dirs[d])
      && (d == c && d in dirs' ==> dirs'[d] == [c])
  {
    CreationTree(v, dirs, p, c, im, v');
    hide Creation, DirChain, AreDirs;
  }

  /** What a directory of the tree lists afterwards. */
  lemma ListingAfter(v: Volume, dirs: map<nat, seq<nat>>, p: nat, c: nat, im: Image, v': Volume, d: nat)
    requires Creation(v, dirs, p, c, im, v') && d in dirs
    ensures var dirs' := DirsAfter(v, dirs, p, c, im, v');
      && d in dirs' && IsDir(v, d, dirs[d]) && IsDir(v', d, dirs'[d])
      && Within(dirs[d], |v.data|) && Within(dirs'[d], |v'.data|)
      && (d != p ==> Listing(v', dirs'[d]) == Listing(v, dirs[d]))
      && (d == p ==> OneMore(Listing(v, dirs[d]), Listing(v', dirs'[d]), NewEntry(v, dirs, p, c, im, v')))
  {
    hide *;
    NewDirIsEmpty(v, dirs, p, c, im, v');
    DirsAfterAt(v, dirs, p, c, im, v', d);
    if d == p { ParentGains(v, dirs, p, c, im, v'); } else { OtherDirKept(v, dirs, p, c, im, v', d); }
  }

  lemma CreationTree(v: Volume, dirs: map<nat, seq<nat>>, p: nat, c: nat, im: Image, v': Volume)
    requires Creation(v, dirs, p, c, im, v')
    ensures AreDirs(v, dirs) && im.cluster == c as int && p in dirs && Nameable(im.name) && im.attr != LONG_NAME
  {
    hide Added, OneCluster, AreDirs;
  }

  lemma {:induction false} OneMoreMembers(before: seq<(nat, Entry)>, after: seq<(nat, Entry)>, e: (nat, Entry), k: nat)
    requires OneMore(before, after, e) && k < |after|
    ensures after[k] == e || after[k] in before
  {
  }

  lemma DirsFrom(v: Volume, dirs: map<nat, seq<nat>>)
    requires WellFormed(v) && forall d :: d in dirs ==> IsDir(v, d, dirs[d])
    ensures AreDirs(v, dirs)
  {
  }

  /** The directories are directories still, and a volume all of whose directories are known stays one. */
  lemma TreeAfter(v: Volume, dirs: map<nat, seq<nat>>, p: nat, c: nat, im: Image, v': Volume)
    requires Creation(v, dirs, p, c, im, v')
    ensures var dirs' := DirsAfter(v, dirs, p, c, im, v');
      AreDirs(v, dirs) && AreDirs(v', dirs') && (Closed(v, dirs) ==> Closed(v', dirs'))
  {
    hide *;
    var dirs' := DirsAfter(v, dirs, p, c, im, v');
    CreationTree(v, dirs, p, c, im, v');
    CreationParts(v, dirs, p, c, im, v');
    AddedFacts(Claim(v, c), dirs[p], im, v');
    NewDirIsEmpty(v, dirs, p, c, im, v');
    forall d | d in dirs'
      ensures IsDir(v', d, dirs'[d])
    {
      DirsAfterAt(v, dirs, p, c, im, v', d);
      if d in dirs { ListingAfter(v, dirs, p, c, im, v', d); }
    }
    DirsFrom(v', dirs');
    if Closed(v, dirs) {
      forall d | d in dirs'
        ensures LeadsInto(v', dirs', d)
      {
        DirsAfterAt(v, dirs, p, c, im, v', d);
        if d in dirs {
          StillLeads(v, dirs, p, c, im, v', d);
        } else {
          DirFits(v', d, dirs'[d]);
          EmptyLeads(v', dirs', d);
        }
      }
      ClosedFrom(v', dirs');
    }
  }

  /** So the next creation finds what this one needed. */
  lemma ApartAfter(v: Volume, dirs: map<nat, seq<nat>>, p: nat, c: nat, im: Image, v': Volume)
    requires Creation(v, dirs, p, c, im, v')
    ensures Apart(DirsAfter(v, dirs, p, c, im, v'))
  {
    hide *;
    var dirs' := DirsAfter(v, dirs, p, c, im, v');
    NewDirIsEmpty(v, dirs, p, c, im, v');
    forall a, b | a in dirs' && b in dirs' && a != b
      ensures Disjoint(dirs'[a], dirs'[b])
    {
      DirsAfterAt(v, dirs, p, c, im, v', a);
      DirsAfterAt(v, dirs, p, c, im, v', b);
      if a == c {
        NewChainApart(v, dirs, p, c, im, v', b);
      } else if b == c {
        NewChainApart(v, dirs, p, c, im, v', a);
        DisjointSym([c], dirs'[a]);
      } else if a == p {
        OtherDirKept(v, dirs, p, c, im, v', b);
      } else if b == p {
        OtherDirKept(v, dirs, p, c, im, v', a);
        DisjointSym(DirChain(v, dirs, p, c, im, v'), dirs[a]);
      } else {
        WereApart(v, dirs, p, c, im, v', a, b);
      }
    }
    ApartIs(dirs');
  }

  lemma ApartIs(dirs: map<nat, seq<nat>>)
    requires forall a, b :: a in dirs && b in dirs && a != b ==> Disjoint(dirs[a], dirs[b])
    ensures Apart(dirs)
  {
  }

  lemma WereApart(v: Volume, dirs: map<nat, seq<nat>>, p: nat, c: nat, im: Image, v': Volume, a: nat, b: nat)
    requires Creation(v, dirs, p, c, im, v') && a in dirs && b in dirs && a != b
    ensures Disjoint(dirs[a], dirs[b])
  {
    hide Added, OneCluster, AreDirs, Claim;
  }

  lemma NewChainApart(v: Volume, dirs: map<nat, seq<nat>>, p: nat, c: nat, im: Image, v': Volume, d: nat)
    requires Creation(v, dirs, p, c, im, v') && c !in dirs && d in dirs
    ensures d in DirsAfter(v, dirs, p, c, im, v') && Disjoint([c], DirsAfter(v, dirs, p, c, im, v')[d])
  {
    hide *;
    DirsAfterAt(v, dirs, p, c, im, v', d);
    if d == p {
      CreationParts(v, dirs, p, c, im, v');
      ClaimKeeps(v, c, dirs[p]);
      ClaimFacts(v, c);
      DisjointSym([c], dirs[p]);
      AddedKeeps(Claim(v, c), dirs[p], im, v', [c]);
      DisjointSym(DirChain(v, dirs, p, c, im, v'), [c]);
    } else {
      OtherDirKept(v, dirs, p, c, im, v', d);
      OneApart(c, dirs[d]);
    }
  }

  lemma OneApart(c: nat, o: seq<nat>)
    requires c !in o
    ensures Disjoint([c], o)
  {
  }

  lemma ClosedFrom(v: Volume, dirs: map<nat, seq<nat>>)
    requires AreDirs(v, dirs) && forall d :: d in dirs ==> LeadsInto(v, dirs, d)
    ensures Closed(v, dirs)
  {
  }

  lemma EmptyLeads(v: Volume, dirs: map<nat, seq<nat>>, d: nat)
    requires AreDirs(v, dirs) && d in dirs && Within(dirs[d], |v.data|) && AllFit(DirSlots(v, dirs[d]))
    requires Listing(v, dirs[d]) == []
    ensures LeadsInto(v, dirs, d)
  {
    hide Listing, AreDirs;
  }

  lemma StillLeads(v: Volume, dirs: map<nat, seq<nat>>, p: nat, c: nat, im: Image, v': Volume, d: nat)
    requires Creation(v, dirs, p, c, im, v') && AreDirs(v, dirs) && Closed(v, dirs) && d in dirs
    requires AreDirs(v', DirsAfter(v, dirs, p, c, im, v'))
    ensures d in DirsAfter(v, dirs, p, c, im, v') && LeadsInto(v', DirsAfter(v, dirs, p, c, im, v'), d)
  {
    hide *;
    var dirs' := DirsAfter(v, dirs, p, c, im, v');
    NewDirIsEmpty(v, dirs, p, c, im, v');
    ListingAfter(v, dirs, p, c, im, v', d);
    ClosedLeads(v, dirs, d);
    forall x: nat | x in dirs || (x == c && IsDirectory(im.attr))
      ensures x in dirs'
    {
      DirsAfterAt(v, dirs, p, c, im, v', x);
    }
    NewEntryName(v, dirs, p, c, im, v');
    DirFits(v, d, dirs[d]);
    DirFits(v', d, dirs'[d]);
    MoreLeads(v, dirs, v', dirs', d, p, c, im, NewEntry(v, dirs, p, c, im, v'));
  }

  lemma ClosedLeads(v: Volume, dirs: map<nat, seq<nat>>, d: nat)
    requires AreDirs(v, dirs) && Closed(v, dirs) && d in dirs
    ensures LeadsInto(v, dirs, d)
  {
    hide AreDirs, LeadsInto;
  }

  lemma MoreLeads(v: Volume, dirs: map<nat, seq<nat>>, v': Volume, dirs': map<nat, seq<nat>>, d: nat, p: nat, c: nat,
                  im: Image, e: (nat, Entry))
    requires AreDirs(v, dirs) && d in dirs && AreDirs(v', dirs') && d in dirs' && LeadsInto(v, dirs, d)
    requires Within(dirs[d], |v.data|) && AllFit(DirSlots(v, dirs[d]))
    requires Within(dirs'[d], |v'.data|) && AllFit(DirSlots(v', dirs'[d]))
    requires d != p ==> Listing(v', dirs'[d]) == Listing(v, dirs[d])
    requires d == p ==> OneMore(Listing(v, dirs[d]), Listing(v', dirs'[d]), e)
    requires e.1.cluster == c && e.1.attr == im.attr
    requires forall x: nat :: x in dirs || (x == c && IsDirectory(im.attr)) ==> x in dirs'
    ensures LeadsInto(v', dirs', d)
  {
    hide Listing, IsDir, OneMore, AreDirs;
    var before, after := Listing(v, dirs[d]), Listing(v', dirs'[d]);
    forall i | 0 <= i < |after|
      ensures StaysIn(dirs', after[i].1)
    {
      if d == p { OneMoreMembers(before, after, e, i); }
      if after[i] in before {
        var k :| 0 <= k < |before| && before[k] == after[i];
        assert StaysIn(dirs, before[k].1);
      }
    }
  }

  // ----- lookup after a creation -----

  /** Matches in a directory of the tree: names like the new entry's come to match it in its directory, unless an
      entry in front of it has such a name, too; nothing else changes. */
  lemma MatchAfter(v: Volume, dirs: map<nat, seq<nat>>, p: nat, c: nat, im: Image, v': Volume, d: nat, name: seq<byte>)
    requires Creation(v, dirs, p, c, im, v') && d in dirs
    ensures IsDir(v, p, dirs[p]) && Within(dirs[p], |v.data|)
    ensures var dirs' := DirsAfter(v, dirs, p, c, im, v');
      && d in dirs' && IsDir(v, d, dirs[d]) && IsDir(v', d, dirs'[d])
      && Within(dirs[d], |v.data|) && Within(dirs'[d], |v'.data|)
      && var m, m' := FirstMatch(Listing(v, dirs[d]), name), FirstMatch(Listing(v', dirs'[d]), name);
         var e, like := NewEntry(v, dirs, p, c, im, v'), SameName(StoredAs(DirSlots(v, dirs[p]), im.name), name);
         m' == if d == p && like && (m.None? || e.0 < m.value.0) then Some(e) else m
  {
    hide *;
    ListingAfter(v, dirs, p, c, im, v', d);
    NewEntryName(v, dirs, p, c, im, v');
    var e := NewEntry(v, dirs, p, c, im, v');
    DirFits(v, d, dirs[d]);
    DirFits(v', d, DirsAfter(v, dirs, p, c, im, v')[d]);
    SameNameTrans(e.1.name, StoredAs(DirSlots(v, dirs[p]), im.name), name);
    if d == p {
      var before, after := Listing(v, dirs[d]), Listing(v', DirsAfter(v, dirs, p, c, im, v')[d]);
      MatchWithOneMore(before, after, e, name);
      ListingInOrder(v', DirsAfter(v, dirs, p, c, im, v')[d]);
      if SameName(e.1.name, name) { FirstOfTwo(before, after, e, name); }
    }
  }

  lemma ListingInOrder(v: Volume, chain: seq<nat>)
    requires Within(chain, |v.data|) && AllFit(DirSlots(v, chain))
    ensures InOrder(Listing(v, chain))
  {
    ScanInOrder(DirSlots(v, chain), ScanState(Zeros(LFN_BUFFER), false), 0);
  }

  lemma DirFits(v: Volume, d: nat, chain: seq<nat>)
    requires IsDir(v, d, chain)
    ensures Within(chain, |v.data|) ==> AllFit(DirSlots(v, chain))
  {
  }

  lemma WalkStep(v: Volume, dirs: map<nat, seq<nat>>, comps: seq<seq<byte>>, start: nat)
    returns (m: Option<(nat, Entry)>)
    requires AreDirs(v, dirs) && start in dirs && comps != []
    ensures Within(dirs[start], |v.data|) && AllFit(DirSlots(v, dirs[start]))
    ensures m == FirstMatch(Listing(v, dirs[start]), comps[0])
    ensures |comps| == 1 ==> Stays(v, dirs, comps, start)
    ensures |comps| > 1 && m.Some? && IsDirectory(m.value.1.attr) ==>
      (Stays(v, dirs, comps, start) <==> m.value.1.cluster in dirs && Stays(v, dirs, comps[1..], m.value.1.cluster))
    ensures m.None? ==> TreeWalk(v, dirs, comps, start) == None
    ensures m.Some? && |comps| == 1 ==> TreeWalk(v, dirs, comps, start) == Some(Found(start, m.value.0, m.value.1))
    ensures m.Some? && |comps| > 1 && (!IsDirectory(m.value.1.attr) || m.value.1.cluster !in dirs) ==>
      TreeWalk(v, dirs, comps, start) == None
    ensures m.Some? && |comps| > 1 && IsDirectory(m.value.1.attr) && m.value.1.cluster in dirs ==>
      TreeWalk(v, dirs, comps, start) == TreeWalk(v, dirs, comps[1..], m.value.1.cluster)
  {
    hide FirstMatch, Listing, IsDirectory;
    DirIsThere(v, dirs, start);
    m := FirstMatch(Listing(v, dirs[start]), comps[0]);
  }

  lemma DirWalkStep(v: Volume, dirs: map<nat, seq<nat>>, comps: seq<seq<byte>>, start: nat)
    returns (m: Option<(nat, Entry)>)
    requires AreDirs(v, dirs) && start in dirs && comps != []
    ensures Within(dirs[start], |v.data|) && AllFit(DirSlots(v, dirs[start]))
    ensures m == FirstMatch(Listing(v, dirs[start]), comps[0])
    ensures m.None? || !IsDirectory(m.value.1.attr) || m.value.1.cluster !in dirs ==>
      DirWalk(v, dirs, comps, start) == None
    ensures m.Some? && IsDirectory(m.value.1.attr) && m.value.1.cluster in dirs ==>
      DirWalk(v, dirs, comps, start) == DirWalk(v, dirs, comps[1..], m.value.1.cluster)
  {
    hide FirstMatch, Listing, IsDirectory;
    DirIsThere(v, dirs, start);
    m := FirstMatch(Listing(v, dirs[start]), comps[0]);
  }

  lemma NoDirWalk(v: Volume, dirs: map<nat, seq<nat>>, start: nat)
    requires AreDirs(v, dirs) && start in dirs
    ensures DirWalk(v, dirs, [], start) == Some(start)
  {
  }

  /** The path walks to directory `p` and ends in a name like `name`. */
  ghost predicate LeadsTo(v: Volume, dirs: map<nat, seq<nat>>, comps: seq<seq<byte>>, start: nat, p: nat,
                          name: seq<byte>)
    requires AreDirs(v, dirs) && start in dirs && comps != []
  {
    && DirWalk(v, dirs, comps[..|comps| - 1], start) == Some(p)
    && SameName(name, comps[|comps| - 1])
  }

  lemma LeadsToStep(v: Volume, dirs: map<nat, seq<nat>>, comps: seq<seq<byte>>, start: nat, p: nat, name: seq<byte>)
    requires AreDirs(v, dirs) && start in dirs && comps != []
    requires Within(dirs[start], |v.data|) && AllFit(DirSlots(v, dirs[start]))
    ensures |comps| == 1 ==> (LeadsTo(v, dirs, comps, start, p, name) <==> start == p && SameName(name, comps[0]))
    ensures var m := FirstMatch(Listing(v, dirs[start]), comps[0]);
      |comps| > 1 ==>
        (LeadsTo(v, dirs, comps, start, p, name) <==>
          && m.Some? && IsDirectory(m.value.1.attr) && m.value.1.cluster in dirs
          && LeadsTo(v, dirs, comps[1..], m.value.1.cluster, p, name))
  {
    hide *;
    var front := comps[..|comps| - 1];
    LeadsToIs(v, dirs, comps, start, p, name);
    if |comps| == 1 {
      assert front == [];
      NoDirWalk(v, dirs, start);
    } else {
      var m := DirWalkStep(v, dirs, front, start);
      assert front[0] == comps[0] && front[1..] == comps[1..][..|comps| - 2];
      assert comps[1..][|comps| - 2] == comps[|comps| - 1];
      if m.Some? && m.value.1.cluster in dirs { LeadsToIs(v, dirs, comps[1..], m.value.1.cluster, p, name); }
    }
  }

  lemma LeadsToIs(v: Volume, dirs: map<nat, seq<nat>>, comps: seq<seq<byte>>, start: nat, p: nat, name: seq<byte>)
    requires AreDirs(v, dirs) && start in dirs && comps != []
    ensures LeadsTo(v, dirs, comps, start, p, name) <==>
      DirWalk(v, dirs, comps[..|comps| - 1], start) == Some(p) && SameName(name, comps[|comps| - 1])
  {
    hide AreDirs, DirWalk, SameName;
  }

  /** The new name is like none in the parent directory. */
  ghost predicate NewName(v: Volume, dirs: map<nat, seq<nat>>, p: nat, name: seq<byte>) {
    && p in dirs && IsDir(v, p, dirs[p]) && Within(dirs[p], |v.data|)
    && FirstMatch(Listing(v, dirs[p]), name).None?
  }

  lemma NoMatchLike(v: Volume, dirs: map<nat, seq<nat>>, p: nat, name: seq<byte>, like: seq<byte>)
    requires NewName(v, dirs, p, name) && SameName(name, like)
    ensures AllFit(DirSlots(v, dirs[p])) && FirstMatch(Listing(v, dirs[p]), like).None?
  {
    NoMatchAlike(Listing(v, dirs[p]), name, like);
  }

  /** Nothing is found behind the new entry: it is a file or an empty directory. */
  lemma NothingBehindNew(v: Volume, dirs: map<nat, seq<nat>>, p: nat, c: nat, im: Image, v': Volume,
                         comps: seq<seq<byte>>)
    requires Creation(v, dirs, p, c, im, v') && comps != []
    ensures var dirs' := DirsAfter(v, dirs, p, c, im, v');
      AreDirs(v', dirs') && (IsDirectory(im.attr) ==> c in dirs' && TreeWalk(v', dirs', comps, c) == None)
  {
    hide *;
    TreeAfter(v, dirs, p, c, im, v');
    NewDirIsEmpty(v, dirs, p, c, im, v');
    DirsAfterAt(v, dirs, p, c, im, v', c);
    if IsDirectory(im.attr) {
      var m := WalkStep(v', DirsAfter(v, dirs, p, c, im, v'), comps, c);
      NoMatchInEmpty(comps[0]);
    }
  }

  lemma NoMatchInEmpty(name: seq<byte>)
    ensures FirstMatch([], name) == None
  {
  }

  /** A component met in directory `p` is the new entry from now on: its name is like the stored one, and no
      entry in front of slot `idx` has such a name. */
  ghost predicate TakesOver(v: Volume, dirs: map<nat, seq<nat>>, p: nat, idx: nat, name: seq<byte>, comp: seq<byte>)
    requires p in dirs && Within(dirs[p], |v.data|) && AllFit(DirSlots(v, dirs[p]))
  {
    var m := FirstMatch(Listing(v, dirs[p]), comp);
    SameName(name, comp) && (m.None? || idx < m.value.0)
  }

  /** The number of components left, from the first one that is the new entry on; 0 when the walk never meets it. */
  ghost function Meeting(v: Volume, dirs: map<nat, seq<nat>>, p: nat, idx: nat, name: seq<byte>,
                         comps: seq<seq<byte>>, start: nat): (n: nat)
    requires AreDirs(v, dirs) && p in dirs && start in dirs
    ensures n <= |comps|
    decreases |comps|
  {
    DirIsThere(v, dirs, p);
    DirIsThere(v, dirs, start);
    if comps == [] then 0
    else if start == p && TakesOver(v, dirs, p, idx, name, comps[0]) then |comps|
    else
      match FirstMatch(Listing(v, dirs[start]), comps[0])
      case None => 0
      case Some(m) =>
        if !IsDirectory(m.1.attr) || m.1.cluster !in dirs then 0
        else Meeting(v, dirs, p, idx, name, comps[1..], m.1.cluster)
  }

  lemma MeetingStep(v: Volume, dirs: map<nat, seq<nat>>, p: nat, idx: nat, name: seq<byte>, comps: seq<seq<byte>>,
                    start: nat)
    requires AreDirs(v, dirs) && p in dirs && start in dirs && comps != []
    ensures Within(dirs[start], |v.data|) && AllFit(DirSlots(v, dirs[start]))
    ensures var m, n := FirstMatch(Listing(v, dirs[start]), comps[0]), Meeting(v, dirs, p, idx, name, comps, start);
      if start == p && SameName(name, comps[0]) && (m.None? || idx < m.value.0) then n == |comps|
      else if m.Some? && IsDirectory(m.value.1.attr) && m.value.1.cluster in dirs then
        n == Meeting(v, dirs, p, idx, name, comps[1..], m.value.1.cluster)
      else n == 0
  {
    DirIsThere(v, dirs, p);
    DirIsThere(v, dirs, start);
    hide Listing, FirstMatch, AreDirs, IsDirectory, SameName;
  }

  /** What a creation changes for lookup, whatever the stored name is like: a path whose last component is the
      new entry finds it, a path that would lead on from it leads nowhere, and every other path that can be looked
      up leads where it led. */
  lemma {:induction false} WalksAfter(v: Volume, dirs: map<nat, seq<nat>>, p: nat, c: nat, im: Image, v': Volume,
                                      comps: seq<seq<byte>>, start: nat)
    requires Creation(v, dirs, p, c, im, v') && AreDirs(v, dirs) && start in dirs && comps != []
    requires Stays(v, dirs, comps, start) && p in dirs && Within(dirs[p], |v.data|)
    ensures var dirs' := DirsAfter(v, dirs, p, c, im, v'); var e := NewEntry(v, dirs, p, c, im, v');
      && AreDirs(v', dirs') && start in dirs'
      && var n := Meeting(v, dirs, p, e.0, StoredAs(DirSlots(v, dirs[p]), im.name), comps, start);
         TreeWalk(v', dirs', comps, start) ==
           if n == 0 then TreeWalk(v, dirs, comps, start) else if n == 1 then Some(Found(p, e.0, e.1)) else None
    decreases |comps|
  {
    hide *;
    NewEntryName(v, dirs, p, c, im, v');
    var name, e := StoredAs(DirSlots(v, dirs[p]), im.name), NewEntry(v, dirs, p, c, im, v');
    var dirs' := DirsAfter(v, dirs, p, c, im, v');
    TreeAfter(v, dirs, p, c, im, v');
    MatchAfter(v, dirs, p, c, im, v', start, comps[0]);
    MeetingStep(v, dirs, p, e.0, name, comps, start);
    var m := WalkStep(v, dirs, comps, start);
    var m' := WalkStep(v', dirs', comps, start);
    if m' == Some(e) && m != m' {
      if |comps| > 1 { NothingBehindNew(v, dirs, p, c, im, v', comps[1..]); }
    } else if |comps| > 1 && m.Some? && IsDirectory(m.value.1.attr) {
      WalksAfter(v, dirs, p, c, im, v', comps[1..], m.value.1.cluster);
    }
  }

  /** When the stored name is like no listed one, a creation adds exactly the paths to the new entry: every
      other path that can be looked up leads where it led, or nowhere still. */
  lemma {:induction false} NewNameWalks(v: Volume, dirs: map<nat, seq<nat>>, p: nat, c: nat, im: Image, v': Volume,
                                      comps: seq<seq<byte>>, start: nat)
    requires Creation(v, dirs, p, c, im, v') && AreDirs(v, dirs) && start in dirs && comps != []
    requires Stays(v, dirs, comps, start) && p in dirs && Within(dirs[p], |v.data|)
    requires NewName(v, dirs, p, StoredAs(DirSlots(v, dirs[p]), im.name))
    ensures var dirs' := DirsAfter(v, dirs, p, c, im, v'); var e := NewEntry(v, dirs, p, c, im, v');
      && AreDirs(v', dirs') && start in dirs'
      && var was, name := TreeWalk(v, dirs, comps, start), StoredAs(DirSlots(v, dirs[p]), im.name);
         && (was.Some? ==> !LeadsTo(v, dirs, comps, start, p, name))
         && TreeWalk(v', dirs', comps, start) ==
              if LeadsTo(v, dirs, comps, start, p, name) then Some(Found(p, e.0, e.1)) else was
    decreases |comps|
  {
    hide *;
    NewEntryName(v, dirs, p, c, im, v');
    var name := StoredAs(DirSlots(v, dirs[p]), im.name);
    var dirs' := DirsAfter(v, dirs, p, c, im, v');
    TreeAfter(v, dirs, p, c, im, v');
    MatchAfter(v, dirs, p, c, im, v', start, comps[0]);
    var m := WalkStep(v, dirs, comps, start);
    var m' := WalkStep(v', dirs', comps, start);
    LeadsToStep(v, dirs, comps, start, p, name);
    if start == p && SameName(name, comps[0]) {
      NoMatchLike(v, dirs, p, name, comps[0]);
      if |comps| > 1 { NothingBehindNew(v, dirs, p, c, im, v', comps[1..]); }
    } else if |comps| > 1 && m.Some? && IsDirectory(m.value.1.attr) {
      NewNameWalks(v, dirs, p, c, im, v', comps[1..], m.value.1.cluster);
    }
  }

  /** An entry that is not stored under the name asked for is not found under it. */
  lemma {:induction false} LostNameIsNotFound(v: Volume, dirs: map<nat, seq<nat>>, p: nat, c: nat, im: Image,
      v': Volume, comps: seq<seq<byte>>, name: seq<byte>, start: nat)
    requires Creation(v, dirs, p, c, im, v') && AreDirs(v, dirs) && start in dirs
    requires DirWalk(v, dirs, comps, start) == Some(p) && NewName(v, dirs, p, name)
    requires !SameName(StoredAs(DirSlots(v, dirs[p]), im.name), name)
    ensures var dirs' := DirsAfter(v, dirs, p, c, im, v');
      AreDirs(v', dirs') && start in dirs' && TreeWalk(v', dirs', comps + [name], start) == None
    decreases |comps|
  {
    hide *;
    var all, dirs' := comps + [name], DirsAfter(v, dirs, p, c, im, v');
    TreeAfter(v, dirs, p, c, im, v');
    NewEntryName(v, dirs, p, c, im, v');
    MatchAfter(v, dirs, p, c, im, v', start, all[0]);
    var m' := WalkStep(v', dirs', all, start);
    if comps == [] {
      NoDirWalk(v, dirs, start);
      NewNameIs(v, dirs, p, name);
    } else {
      var m := DirWalkStep(v, dirs, comps, start);
      assert all[0] == comps[0] && all[1..] == comps[1..] + [name];
      NothingBehindNew(v, dirs, p, c, im, v', all[1..]);
      LostNameIsNotFound(v, dirs, p, c, im, v', comps[1..], name, m.value.1.cluster);
    }
  }

  lemma NewNameIs(v: Volume, dirs: map<nat, seq<nat>>, p: nat, name: seq<byte>)
    requires NewName(v, dirs, p, name)
    ensures p in dirs && Within(dirs[p], |v.data|) && AllFit(DirSlots(v, dirs[p]))
    ensures FirstMatch(Listing(v, dirs[p]), name).None?
  {
  }
}
