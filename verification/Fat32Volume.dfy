/** A FAT32 volume as the driver sees it: the raw entries of the allocation
    table and the bytes of each cluster, with the theory of cluster chains. */
module Fat32Volume {
  import opened Bytes

  const ENDOFCHAIN := 0x0FFFFFF8
  /** The low 28 bits of an entry link clusters; the high 4 are reserved. */
  const LINK := 0x1000_0000

  /** `data[c]` is the content of cluster `c`. Clusters are numbered from 2, so
      `data[0]` and `data[1]` mean nothing, and `|data|` bounds the allocator's scan. */
  datatype Volume = Volume(bpc: nat, fat: seq<u32>, data: seq<seq<byte>>)

  ghost predicate WellFormed(v: Volume)
  {
    && 0 < v.bpc && v.bpc % 32 == 0
    && |v.data| <= |v.fat|
    && |v.data| < ENDOFCHAIN - 1
    && forall c :: 2 <= c < |v.data| ==> |v.data[c]| == v.bpc
  }

  predicate IsCluster(v: Volume, c: nat) { 2 <= c < |v.data| }

  /** All numbers of `cs` are below `n`. */
  predicate Within(cs: seq<nat>, n: nat)
  {
    forall i :: 0 <= i < |cs| ==> cs[i] < n
  }

  ghost predicate Clusters(v: Volume, cs: seq<nat>)
  {
    forall i :: 0 <= i < |cs| ==> IsCluster(v, cs[i])
  }

  function Next(v: Volume, c: nat): nat
    requires c < |v.fat|
  {
    v.fat[c] % LINK
  }

  function Linked(entry: u32, value: nat): u32 {
    entry / LINK * LINK + value % LINK
  }

  function SetNext(v: Volume, c: nat, value: nat): Volume
    requires c < |v.fat|
  {
    v.(fat := v.fat[c := Linked(v.fat[c], value)])
  }

  // ----- free clusters -----

  ghost function FreeSet(v: Volume): set<nat>
    requires |v.data| <= |v.fat|
  {
    set c: nat | 2 <= c < |v.data| && Next(v, c) == 0
  }

  /** The first free cluster from `i` on, or `|data|` when there is none. */
  function FirstFree(v: Volume, i: nat): (c: nat)
    requires |v.data| <= |v.fat|
    ensures i <= c || c == |v.data|
    ensures c < |v.data| ==> Next(v, c) == 0
    ensures c <= |v.data|
    ensures forall k :: i <= k < c ==> Next(v, k) != 0
    decreases |v.data| - i
  {
    if i >= |v.data| then |v.data|
    else if Next(v, i) == 0 then i
    else FirstFree(v, i + 1)
  }

  /** Taking cluster `c`: its entry becomes end-of-chain and its content is zeroed. */
  function Take(v: Volume, c: nat): Volume
    requires c < |v.data| <= |v.fat|
  {
    v.(fat := v.fat[c := ENDOFCHAIN], data := v.data[c := Zeros(v.bpc)])
  }

  // ----- chains -----

  ghost predicate Distinct<T(!new)>(s: seq<T>)
  {
    forall i, j :: 0 <= i < j < |s| ==> s[i] != s[j]
  }

  ghost predicate Disjoint<T(!new)>(a: seq<T>, b: seq<T>)
  {
    forall c :: !(c in a && c in b)
  }

  ghost predicate IsChain(v: Volume, cs: seq<nat>)
  {
    && |v.data| <= |v.fat|
    && cs != []
    && Clusters(v, cs)
    && (forall i :: 0 <= i < |cs| - 1 ==> Next(v, cs[i]) == cs[i + 1])
    && Next(v, cs[|cs| - 1]) >= ENDOFCHAIN
  }

  /** What the entries of the table say, in the numbers of the FAT specification: the low 28 bits are 0 for a free
      cluster, the next cluster of a chain, or at least 0x0FFFFFF8 for its last one. */
  lemma EntriesSay(v: Volume, cs: seq<nat>, c: nat)
    requires |v.data| <= |v.fat|
    ensures c in FreeSet(v) <==> 2 <= c < |v.data| && v.fat[c] % 0x1000_0000 == 0
    ensures IsChain(v, cs) <==>
      && cs != [] && (forall i :: 0 <= i < |cs| ==> 2 <= cs[i] < |v.data|)
      && (forall i :: 0 <= i < |cs| - 1 ==> v.fat[cs[i]] % 0x1000_0000 == cs[i + 1])
      && v.fat[cs[|cs| - 1]] % 0x1000_0000 >= 0x0FFF_FFF8
  {
  }

  /** What is written: end-of-chain for a cluster taken, whose bytes become 0, and the low 28 bits for a link. */
  lemma EntriesWritten(v: Volume, c: nat, value: nat)
    requires c < |v.data| <= |v.fat|
    ensures Take(v, c) == Volume(v.bpc, v.fat[c := 0x0FFF_FFF8], v.data[c := seq(v.bpc, i => 0)])
    ensures var w := SetNext(v, c, value);
      && w.data == v.data && w.bpc == v.bpc && |w.fat| == |v.fat|
      && w.fat[c] % 0x1000_0000 == value % 0x1000_0000 && w.fat[c] / 0x1000_0000 == v.fat[c] / 0x1000_0000
      && forall d :: 0 <= d < |v.fat| && d != c ==> w.fat[d] == v.fat[d]
  {
    assert Zeros(v.bpc) == seq(v.bpc, i => 0);
  }

  function Last(cs: seq<nat>): nat
    requires cs != []
  {
    cs[|cs| - 1]
  }

  /** The table's links alone make a chain acyclic. */
  lemma ChainIsDistinct(v: Volume, cs: seq<nat>)
    requires WellFormed(v) && IsChain(v, cs)
    ensures Distinct(cs)
  {
    forall i, j | 0 <= i < j < |cs|
      ensures cs[i] != cs[j]
    {
      ChainHasNoLoop(v, cs, i, j);
    }
  }

  lemma {:induction false} ChainHasNoLoop(v: Volume, cs: seq<nat>, i: nat, j: nat)
    requires WellFormed(v) && IsChain(v, cs)
    requires i < j < |cs|
    ensures cs[i] != cs[j]
    decreases |cs| - j
  {
    assert Next(v, cs[i]) == cs[i + 1] && IsCluster(v, cs[i + 1]);
    if j + 1 < |cs| {
      ChainHasNoLoop(v, cs, i + 1, j + 1);
    }
  }

  lemma ChainIsInUse(v: Volume, cs: seq<nat>)
    requires WellFormed(v) && IsChain(v, cs)
    ensures forall c :: c in cs ==> IsCluster(v, c) && Next(v, c) != 0 && c !in FreeSet(v)
  {
    forall i | 0 <= i < |cs|
      ensures IsCluster(v, cs[i]) && Next(v, cs[i]) != 0
    {
      if i < |cs| - 1 { assert IsCluster(v, cs[i + 1]); }
    }
  }

  /** A start cluster determines its chain. */
  lemma {:induction false} ChainIsUnique(v: Volume, a: seq<nat>, b: seq<nat>)
    requires WellFormed(v) && IsChain(v, a) && IsChain(v, b) && a[0] == b[0]
    ensures a == b
  {
    if |a| > 1 { assert Next(v, a[0]) == a[1] && IsCluster(v, a[1]); }
    if |b| > 1 { assert Next(v, b[0]) == b[1] && IsCluster(v, b[1]); }
    if |a| > 1 && |b| > 1 {
      ChainIsUnique(v, a[1..], b[1..]);
      assert a == [a[0]] + a[1..] && b == [b[0]] + b[1..];
    }
  }

  lemma ChainFrame(v: Volume, v': Volume, cs: seq<nat>)
    requires IsChain(v, cs) && |v'.fat| == |v.fat| && |v'.data| == |v.data|
    requires forall i :: 0 <= i < |cs| ==> v'.fat[cs[i]] == v.fat[cs[i]]
    ensures IsChain(v', cs)
  {
  }

  // ----- extension -----

  datatype Growth = Growth(vol: Volume, added: seq<nat>, ok: bool)

  /** Appending `n` clusters after `last`, one at a time, until the volume is full. */
  function Grow(v: Volume, last: nat, n: nat): Growth
    requires WellFormed(v) && IsCluster(v, last)
    decreases n
  {
    if n == 0 then Growth(v, [], true)
    else
      var c := FirstFree(v, 2);
      if c >= |v.data| then Growth(v, [], false)
      else
        var r := Grow(TakeAndLink(v, last, c), c, n - 1);
        Growth(r.vol, [c] + r.added, r.ok)
  }

  /** What an extension by `n` clusters leaves: behind `last` when the file has
      clusters, or as a new chain when it has none. */
  function Extended(v: Volume, last: nat, linked: bool, n: nat): Growth
    requires WellFormed(v) && (linked ==> IsCluster(v, last)) && n > 0
  {
    if linked then Grow(v, last, n)
    else
      var c := FirstFree(v, 2);
      if c >= |v.data| then Growth(v, [], false)
      else
        var r := Grow(Take(v, c), c, n - 1);
        Growth(r.vol, [c] + r.added, r.ok)
  }

  lemma FirstFreeIsFree(v: Volume)
    requires WellFormed(v)
    ensures FirstFree(v, 2) < |v.data| <==> FreeSet(v) != {}
    ensures FirstFree(v, 2) < |v.data| ==> FirstFree(v, 2) in FreeSet(v)
  {
    var c := FirstFree(v, 2);
    if c < |v.data| {
      assert c in FreeSet(v);
    } else {
      forall d: nat
        ensures d !in FreeSet(v)
      {
      }
    }
  }

  /** One round of the extension loop. */
  function TakeAndLink(v: Volume, last: nat, c: nat): Volume
    requires last < |v.fat| && c < |v.data| <= |v.fat|
  {
    SetNext(Take(v, c), last, c)
  }

  lemma TakeAndLinkFrees(v: Volume, last: nat, c: nat)
    requires WellFormed(v) && c in FreeSet(v) && IsCluster(v, last) && last !in FreeSet(v)
    ensures var v1 := TakeAndLink(v, last, c);
            && WellFormed(v1) && v1.fat[c] == ENDOFCHAIN && Next(v1, last) == c
            && FreeSet(v1) == FreeSet(v) - {c} && |FreeSet(v1)| == |FreeSet(v)| - 1
  {
    var v1 := TakeAndLink(v, last, c);
    assert v1.fat[c] == ENDOFCHAIN && Next(v1, last) == c;
    forall d: nat
      ensures d in FreeSet(v1) <==> d in FreeSet(v) && d != c
    {
    }
    assert FreeSet(v1) == FreeSet(v) - {c};
  }

  lemma TakeAndLinkChains(v: Volume, cs: seq<nat>, c: nat)
    requires WellFormed(v) && IsChain(v, cs) && Distinct(cs) && c !in cs && IsCluster(v, c)
    ensures IsChain(TakeAndLink(v, Last(cs), c), cs + [c])
  {
    var v1 := TakeAndLink(v, Last(cs), c);
    var ds := cs + [c];
    assert Last(cs) in cs;
    assert Next(v1, Last(cs)) == c;
    assert v1.fat[c] == ENDOFCHAIN;
    forall i | 0 <= i < |ds| - 1
      ensures Next(v1, ds[i]) == ds[i + 1]
    {
      assert cs[i] in cs;
      if i < |cs| - 1 {
        assert v1.fat[cs[i]] == v.fat[cs[i]];
        assert Next(v, cs[i]) == cs[i + 1];
      }
    }
  }

  /** The free clusters an extension uses up. */
  ghost predicate TookFree(v: Volume, g: Growth)
  {
    && WellFormed(v) && WellFormed(g.vol)
    && Clusters(v, g.added) && Distinct(g.added)
    && (forall c: nat :: c in FreeSet(v) <==> c in FreeSet(g.vol) || c in g.added)
    && (forall c: nat :: c in g.added ==> c !in FreeSet(g.vol))
    && |FreeSet(g.vol)| + |g.added| == |FreeSet(v)|
  }

  /** What an extension may write: the old last entry and the clusters it adds. */
  ghost predicate WroteNew(v: Volume, last: nat, g: Growth)
  {
    && g.vol.bpc == v.bpc && |g.vol.fat| == |v.fat| && |g.vol.data| == |v.data|
    && Within(g.added, |v.data|)
    && (forall c :: 0 <= c < |v.fat| && c != last && c !in g.added ==> g.vol.fat[c] == v.fat[c])
    && (forall c :: 0 <= c < |v.data| && c !in g.added ==> g.vol.data[c] == v.data[c])
    && (forall i :: 0 <= i < |g.added| ==> g.vol.data[g.added[i]] == Zeros(v.bpc))
    && (g.added == [] ==> g.vol == v)
    && (|v.data| <= |v.fat| && g.added != [] ==> g.vol.fat[Last(g.added)] == ENDOFCHAIN)
  }

  ghost predicate Grew(v: Volume, last: nat, g: Growth)
  {
    TookFree(v, g) && WroteNew(v, last, g)
  }

  /** Extension takes clusters from the free ones only, and zeroes them. */
  lemma {:induction false} GrowTakesFree(v: Volume, last: nat, n: nat)
    requires WellFormed(v) && IsCluster(v, last) && last !in FreeSet(v)
    ensures Grew(v, last, Grow(v, last, n))
    decreases n
  {
    if n == 0 || FirstFree(v, 2) >= |v.data| {
      GrewNothing(v, last, n == 0);
    } else {
      FirstFreeIsFree(v);
      var c := FirstFree(v, 2);
      TakeAndLinkFrees(v, last, c);
      var r := Grow(TakeAndLink(v, last, c), c, n - 1);
      GrowTakesFree(TakeAndLink(v, last, c), c, n - 1);
      GrowCombine(v, last, c, r);
    }
  }

  /** It takes the lowest free clusters, in ascending order. */
  lemma {:induction false} GrowTakesLowest(v: Volume, last: nat, n: nat)
    requires WellFormed(v) && IsCluster(v, last) && last !in FreeSet(v)
    ensures var a := Grow(v, last, n).added;
      && (forall i, j :: 0 <= i < j < |a| ==> a[i] < a[j])
      && forall i, f :: 0 <= i < |a| && f in FreeSet(v) && f !in a ==> a[i] < f
    decreases n
  {
    hide *;
    var c, v1 := GrowUnfolds(v, last, n);
    if n > 0 && FirstFree(v, 2) < |v.data| {
      GrowTakesLowest(v1, c, n - 1);
      LowestFirst(v, c, Grow(v1, c, n - 1).added);
    }
  }

  lemma GrowUnfolds(v: Volume, last: nat, n: nat) returns (c: nat, v1: Volume)
    requires WellFormed(v) && IsCluster(v, last) && last !in FreeSet(v)
    ensures |v.data| <= |v.fat| && (n == 0 || FirstFree(v, 2) >= |v.data| ==> Grow(v, last, n).added == [])
    ensures n > 0 && FirstFree(v, 2) < |v.data| ==>
      && c == FirstFree(v, 2) && WellFormed(v1) && IsCluster(v1, c) && c !in FreeSet(v1)
      && |v1.data| <= |v1.fat| && FreeSet(v1) == FreeSet(v) - {c}
      && Grow(v, last, n).added == [c] + Grow(v1, c, n - 1).added
      && forall d :: d in Grow(v1, c, n - 1).added ==> d in FreeSet(v1)
  {
    GrowStep(v, last, n);
    FirstFreeIsFree(v);
    hide *;
    c, v1 := FirstFree(v, 2), v;
    if n > 0 && c < |v.data| {
      TakeAndLinkFrees(v, last, c);
      v1 := TakeAndLink(v, last, c);
      GrowTakesFree(v1, c, n - 1);
      GrewFrom(v1, c, Grow(v1, c, n - 1));
    }
  }

  lemma GrowStep(v: Volume, last: nat, n: nat)
    requires WellFormed(v) && IsCluster(v, last) && last !in FreeSet(v)
    ensures |v.data| <= |v.fat| && (n == 0 || FirstFree(v, 2) >= |v.data| ==> Grow(v, last, n).added == [])
    ensures n > 0 && FirstFree(v, 2) < |v.data| ==>
      var c := FirstFree(v, 2); var v1 := TakeAndLink(v, last, c);
      && last < |v.fat| && IsCluster(v1, c) && WellFormed(v1) && |v1.data| <= |v1.fat|
      && Grow(v, last, n).added == [c] + Grow(v1, c, n - 1).added
  {
    if n > 0 && FirstFree(v, 2) < |v.data| {
      FirstFreeIsFree(v);
      TakeAndLinkFrees(v, last, FirstFree(v, 2));
    }
    hide FirstFree, FreeSet;
  }

  lemma GrewFrom(v: Volume, last: nat, g: Growth)
    requires |v.data| <= |v.fat| && Grew(v, last, g)
    ensures forall d :: d in g.added ==> d in FreeSet(v)
  {
    hide FreeSet;
  }

  lemma LowestFirst(v: Volume, c: nat, added: seq<nat>)
    requires WellFormed(v) && c == FirstFree(v, 2) && forall d :: d in added ==> d in FreeSet(v) - {c}
    requires forall i, j :: 0 <= i < j < |added| ==> added[i] < added[j]
    requires forall i, f :: 0 <= i < |added| && f in FreeSet(v) - {c} && f !in added ==> added[i] < f
    ensures var a := [c] + added;
      && (forall i, j :: 0 <= i < j < |a| ==> a[i] < a[j])
      && forall i, f :: 0 <= i < |a| && f in FreeSet(v) && f !in a ==> a[i] < f
  {
    forall f | f in FreeSet(v) && f != c
      ensures c < f
    {
    }
    hide FirstFree;
    var a := [c] + added;
    assert forall i :: 1 <= i < |a| ==> a[i] == added[i - 1] && a[i] in added;
  }

  /** Extension fails exactly when the free clusters run out, and then has taken them all. */
  lemma {:induction false} GrowCount(v: Volume, last: nat, n: nat)
    requires WellFormed(v) && IsCluster(v, last) && last !in FreeSet(v)
    ensures Grow(v, last, n).ok <==> n <= |FreeSet(v)|
    ensures |Grow(v, last, n).added| == Min(n, |FreeSet(v)|)
    decreases n
  {
    FirstFreeIsFree(v);
    if n > 0 && FirstFree(v, 2) < |v.data| {
      var c := FirstFree(v, 2);
      TakeAndLinkFrees(v, last, c);
      GrowCount(TakeAndLink(v, last, c), c, n - 1);
    }
  }

  /** Extension keeps the chain's clusters in place and appends the new ones. */
  lemma {:induction false} GrowExtendsChain(v: Volume, cs: seq<nat>, n: nat)
    requires WellFormed(v) && IsChain(v, cs)
    ensures IsChain(Grow(v, Last(cs), n).vol, cs + Grow(v, Last(cs), n).added)
    decreases n
  {
    if n == 0 || FirstFree(v, 2) >= |v.data| {
      assert cs + [] == cs;
    } else {
      var c := FirstFree(v, 2);
      FirstFreeIsFree(v);
      ChainIsDistinct(v, cs);
      ChainIsInUse(v, cs);
      assert Last(cs) in cs;
      TakeAndLinkFrees(v, Last(cs), c);
      TakeAndLinkChains(v, cs, c);
      assert Last(cs + [c]) == c;
      GrowExtendsChain(TakeAndLink(v, Last(cs), c), cs + [c], n - 1);
      var r := Grow(TakeAndLink(v, Last(cs), c), c, n - 1);
      assert cs + [c] + r.added == cs + ([c] + r.added);
    }
  }

  lemma GrewNothing(v: Volume, last: nat, ok: bool)
    requires WellFormed(v)
    ensures Grew(v, last, Growth(v, [], ok))
  {
  }

  lemma GrowCombine(v: Volume, last: nat, c: nat, r: Growth)
    requires WellFormed(v) && IsCluster(v, last) && last !in FreeSet(v) && c in FreeSet(v)
    requires Grew(TakeAndLink(v, last, c), c, r)
    ensures Grew(v, last, r.(added := [c] + r.added))
  {
    TakeAndLinkFrees(v, last, c);
    TookOneMore(v, TakeAndLink(v, last, c), c, r);
    WroteOneMore(v, last, c, r);
  }

  lemma TookOneMore(v: Volume, v1: Volume, c: nat, r: Growth)
    requires WellFormed(v) && c in FreeSet(v) && |v1.data| == |v.data| <= |v1.fat|
    requires FreeSet(v1) == FreeSet(v) - {c} && |FreeSet(v1)| == |FreeSet(v)| - 1
    requires TookFree(v1, r)
    ensures TookFree(v, r.(added := [c] + r.added))
  {
    var added := [c] + r.added;
    assert c !in r.added && c !in FreeSet(v1);
    assert forall d :: d in added <==> d == c || d in r.added;
    assert forall i :: 0 < i < |added| ==> added[i] == r.added[i - 1];
  }

  lemma WroteOneMore(v: Volume, last: nat, c: nat, r: Growth)
    requires WellFormed(v) && IsCluster(v, last) && IsCluster(v, c) && c != last && c !in r.added
    requires TakeAndLink(v, last, c).fat[c] == ENDOFCHAIN
    requires WroteNew(TakeAndLink(v, last, c), c, r)
    ensures WroteNew(v, last, r.(added := [c] + r.added))
  {
    var added := [c] + r.added;
    assert forall d :: d in added <==> d == c || d in r.added;
    assert r.added != [] ==> Last(added) == Last(r.added);
    assert forall i :: 0 < i < |added| ==> added[i] == r.added[i - 1];
  }

  // ----- truncation -----

  function Unlink(v: Volume, cs: seq<nat>): (v': Volume)
    requires Within(cs, |v.fat|)
    ensures |v'.fat| == |v.fat| && v'.data == v.data && v'.bpc == v.bpc
    decreases |cs|
  {
    if cs == [] then v else Unlink(SetNext(v, cs[0], 0), cs[1..])
  }

  /** Truncation: every cluster of the chain is freed, then the first one is taken back. */
  function Reset(v: Volume, cs: seq<nat>): Volume
    requires cs != [] && Within(cs, |v.fat|)
  {
    SetNext(Unlink(v, cs), cs[0], ENDOFCHAIN)
  }

  lemma {:induction false} UnlinkEffect(v: Volume, cs: seq<nat>)
    requires Distinct(cs) && Within(cs, |v.fat|)
    ensures var v' := Unlink(v, cs);
            && (forall c :: 0 <= c < |v.fat| && c !in cs ==> v'.fat[c] == v.fat[c])
            && (forall c :: c in cs ==> v'.fat[c] == Linked(v.fat[c], 0))
    decreases |cs|
  {
    if cs != [] {
      var v1 := SetNext(v, cs[0], 0);
      UnlinkEffect(v1, cs[1..]);
      assert forall c :: c in cs <==> c == cs[0] || c in cs[1..];
      assert cs[0] !in cs[1..];
    }
  }

  lemma ResetEffect(v: Volume, cs: seq<nat>)
    requires WellFormed(v) && IsChain(v, cs)
    ensures var v' := Reset(v, cs);
            && WellFormed(v') && v'.data == v.data && |v'.fat| == |v.fat|
            && IsChain(v', [cs[0]])
            && (forall c :: 0 <= c < |v.fat| && c !in cs ==> v'.fat[c] == v.fat[c])
            && (forall i :: 0 <= i < |cs| ==> v'.fat[cs[i]] / LINK == v.fat[cs[i]] / LINK)
            && (forall i :: 1 <= i < |cs| ==> Next(v', cs[i]) == 0)
  {
    ChainIsDistinct(v, cs);
    UnlinkEffect(v, cs);
    assert forall i :: 0 <= i < |cs| ==> cs[i] in cs;
  }

  lemma ResetFrees(v: Volume, cs: seq<nat>)
    requires WellFormed(v) && IsChain(v, cs)
    ensures FreeSet(Reset(v, cs)) == FreeSet(v) + (set c | c in cs[1..])
    ensures |FreeSet(Reset(v, cs))| + 1 == |FreeSet(v)| + |cs|
  {
    ResetEffect(v, cs);
    ChainIsDistinct(v, cs);
    ChainIsInUse(v, cs);
    var v' := Reset(v, cs);
    var freed := set c | c in cs[1..];
    assert forall c :: c in cs <==> c == cs[0] || c in cs[1..];
    assert cs[0] !in cs[1..];
    forall c | c in freed
      ensures c in FreeSet(v')
    {
      var i :| 1 <= i < |cs| && cs[i] == c;
    }
    assert FreeSet(v') == FreeSet(v) + freed;
    DistinctCard(cs[1..]);
    assert FreeSet(v) !! freed;
  }

  lemma {:induction false} DistinctCard<T(!new)>(s: seq<T>)
    requires Distinct(s)
    ensures |set c | c in s| == |s|
  {
    if s != [] {
      DistinctCard(s[1..]);
      assert (set c | c in s) == {s[0]} + (set c | c in s[1..]);
      assert s[0] !in s[1..];
    }
  }

  // ----- content -----

  function Blocks(v: Volume, cs: seq<nat>): (ss: seq<seq<byte>>)
    requires Within(cs, |v.data|)
    ensures |ss| == |cs|
  {
    seq(|cs|, i requires 0 <= i < |cs| => v.data[cs[i]])
  }

  /** The bytes of a chain of clusters, end to end. */
  function Load(v: Volume, cs: seq<nat>): seq<byte>
    requires Within(cs, |v.data|)
  {
    Flatten(Blocks(v, cs))
  }

  lemma LoadLength(v: Volume, cs: seq<nat>)
    requires WellFormed(v) && Clusters(v, cs)
    ensures Uniform(Blocks(v, cs), v.bpc) && |Load(v, cs)| == |cs| * v.bpc
  {
    FlattenLength(Blocks(v, cs), v.bpc);
  }

  lemma LoadFrame(v: Volume, v': Volume, cs: seq<nat>)
    requires |v'.data| == |v.data| && Within(cs, |v.data|)
    requires forall i :: 0 <= i < |cs| ==> v'.data[cs[i]] == v.data[cs[i]]
    ensures Blocks(v', cs) == Blocks(v, cs) && Load(v', cs) == Load(v, cs)
  {
    assert Blocks(v', cs) == Blocks(v, cs);
  }

  lemma LoadAppend(v: Volume, a: seq<nat>, b: seq<nat>)
    requires Within(a, |v.data|) && Within(b, |v.data|)
    ensures Load(v, a + b) == Load(v, a) + Load(v, b)
  {
    FlattenAppend(Blocks(v, a), Blocks(v, b));
    assert Blocks(v, a + b) == Blocks(v, a) + Blocks(v, b);
  }

  function SetData(v: Volume, c: nat, p: seq<byte>): Volume
    requires c < |v.data|
  {
    v.(data := v.data[c := p])
  }

  lemma StoreOne(v: Volume, cs: seq<nat>, k: nat, p: seq<byte>)
    requires WellFormed(v) && Distinct(cs) && k < |cs| && |p| == v.bpc
    requires Clusters(v, cs)
    ensures WellFormed(SetData(v, cs[k], p))
    ensures Blocks(SetData(v, cs[k], p), cs) == Blocks(v, cs)[k := p]
  {
    assert Blocks(SetData(v, cs[k], p), cs) == Blocks(v, cs)[k := p];
  }
}
