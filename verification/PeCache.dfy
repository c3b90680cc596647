/** The library cache: reference counts against the references that exist, and why the live
    references alone determine what is cached. */
module PeCache {
  import opened Wrappers
  import opened PeExports

  /** An import: the hash of the library's name, and the imported names' hashes; imports by
      ordinal have none. */
  datatype Import = Import(dll: qword, names: seq<Option<qword>>)

  /** A file on disk: whether its headers are accepted, its imports, whether its relocations can
      be applied, and its export table, if it has an export directory. */
  datatype File = File(readable: bool, imports: seq<Import>, relocatable: bool, exportDir: bool, exports: seq<Row>)

  /** A cached library: how often it is referenced, which libraries it references, what it exports. */
  datatype Library = Library(refCount: nat, refs: seq<qword>, index: seq<seq<Func>>)

  function Names(imports: seq<Import>): (r: seq<qword>)
    ensures |r| == |imports|
    ensures forall i :: 0 <= i < |imports| ==> r[i] == imports[i].dll
  {
    seq(|imports|, i requires 0 <= i < |imports| => imports[i].dll)
  }

  // ----- all references held by cached libraries -----

  ghost function AllRefs(libs: map<qword, Library>): multiset<qword>
    decreases |libs|
  {
    if libs == map[] then multiset{}
    else
      var k :| k in libs;
      multiset(libs[k].refs) + AllRefs(libs - {k})
  }

  lemma Smaller(libs: map<qword, Library>, k: qword)
    requires k in libs
    ensures |libs - {k}| == |libs| - 1
  {
    assert (libs - {k}).Keys == libs.Keys - {k};
    assert |libs.Keys| == |libs| && |(libs - {k}).Keys| == |libs - {k}|;
  }

  lemma {:induction false} AllRefsRemove(libs: map<qword, Library>, k: qword)
    requires k in libs
    ensures AllRefs(libs) == multiset(libs[k].refs) + AllRefs(libs - {k})
    decreases |libs|
  {
    var p :| p in libs && AllRefs(libs) == multiset(libs[p].refs) + AllRefs(libs - {p});
    if p != k {
      Smaller(libs, p);
      Smaller(libs, k);
      AllRefsRemove(libs - {p}, k);
      AllRefsRemove(libs - {k}, p);
      assert libs - {p} - {k} == libs - {k} - {p};
    }
  }

  /** The references do not depend on the counts. */
  lemma {:induction false} AllRefsSame(a: map<qword, Library>, b: map<qword, Library>)
    requires a.Keys == b.Keys && forall k :: k in a ==> a[k].refs == b[k].refs
    ensures AllRefs(a) == AllRefs(b)
    decreases |a|
  {
    if a == map[] {
      assert b == map[];
    } else {
      var k :| k in a;
      AllRefsRemove(a, k);
      AllRefsRemove(b, k);
      Smaller(a, k);
      AllRefsSame(a - {k}, b - {k});
    }
  }

  lemma AllRefsAdd(libs: map<qword, Library>, k: qword, lib: Library)
    requires k !in libs
    ensures AllRefs(libs[k := lib]) == multiset(lib.refs) + AllRefs(libs)
  {
    AllRefsRemove(libs[k := lib], k);
    assert libs[k := lib] - {k} == libs;
  }

  lemma {:induction false} RefIsHeld(libs: map<qword, Library>, h: qword) returns (g: qword)
    requires AllRefs(libs)[h] > 0
    ensures g in libs && h in libs[g].refs
    decreases |libs|
  {
    g :| g in libs && AllRefs(libs) == multiset(libs[g].refs) + AllRefs(libs - {g});
    if h !in libs[g].refs {
      Smaller(libs, g);
      g := RefIsHeld(libs - {g}, h);
    }
  }

  lemma HeldIsRef(libs: map<qword, Library>, g: qword, h: qword)
    requires g in libs && h in libs[g].refs
    ensures AllRefs(libs)[h] > 0
  {
    AllRefsRemove(libs, g);
  }

  // ----- the invariant -----

  /** `outside` holds the references of modules that are not cached: executables, and modules
      still being loaded. */
  ghost predicate Counted(libs: map<qword, Library>, outside: multiset<qword>) {
    && (forall h :: h in libs ==> libs[h].refCount == AllRefs(libs)[h] + outside[h])
    && (forall h :: h in AllRefs(libs) + outside ==> h in libs)
  }

  ghost predicate Acyclic(disk: map<qword, File>, rank: qword -> nat) {
    forall h, i :: h in disk && 0 <= i < |disk[h].imports| && disk[h].imports[i].dll in disk ==>
      rank(disk[h].imports[i].dll) < rank(h)
  }

  /** Every cached library came from its file, and could be loaded again. */
  ghost predicate FromDisk(libs: map<qword, Library>, disk: map<qword, File>, rank: qword -> nat)
    requires Acyclic(disk, rank)
  {
    forall h :: h in libs ==> CameFrom(libs[h], disk, rank, h)
  }

  ghost predicate CameFrom(lib: Library, disk: map<qword, File>, rank: qword -> nat, h: qword)
    requires Acyclic(disk, rank)
  {
    Loadable(disk, rank, h) && lib.refs == Names(disk[h].imports) && lib.index == IndexOf(disk[h].exports)
  }

  ghost predicate NamesFound(names: seq<Option<qword>>, index: seq<seq<Func>>)
    requires |index| == BUCKETS
  {
    forall i :: 0 <= i < |names| ==> names[i].Some? && Lookup(index, names[i].value).Some?
  }

  /** The address offsets the names are bound to. */
  function Bound(names: seq<Option<qword>>, index: seq<seq<Func>>): (r: seq<nat>)
    requires |index| == BUCKETS
    ensures |r| == |names|
  {
    seq(|names|, i requires 0 <= i < |names| =>
      if names[i].Some? && Lookup(index, names[i].value).Some? then Lookup(index, names[i].value).value.rva else 0)
  }

  /** A name is bound to the first row of the library's table with its hash. */
  lemma BoundIsFirstNamed(names: seq<Option<qword>>, table: seq<Row>, i: nat)
    requires i < |names| && NamesFound(names, IndexOf(table))
    ensures names[i].Some? && FirstNamed(table, names[i].value).Some?
    ensures Bound(names, IndexOf(table))[i] == FirstNamed(table, names[i].value).value.rva
  {
    IndexAgreesWithTable(table, names[i].value);
    hide IndexOf, FirstNamed, Lookup;
  }

  /** The import tables of a module after loading: for each import, the offsets into its library. */
  ghost predicate IsBound(disk: map<qword, File>, imports: seq<Import>, iat: seq<seq<nat>>) {
    |iat| == |imports| && forall i :: 0 <= i < |imports| ==> BoundTo(disk, imports[i], iat[i])
  }

  ghost predicate BoundTo(disk: map<qword, File>, imp: Import, thunks: seq<nat>) {
    imp.dll in disk && thunks == Bound(imp.names, IndexOf(disk[imp.dll].exports))
  }

  /** Whether library `h` can be loaded at all: its file is accepted, has an export directory, and
      every import names a loadable library that exports what is imported. */
  ghost predicate Loadable(disk: map<qword, File>, rank: qword -> nat, h: qword)
    requires Acyclic(disk, rank)
    decreases rank(h)
  {
    && h in disk && disk[h].readable && disk[h].relocatable && disk[h].exportDir
    && forall i :: 0 <= i < |disk[h].imports| ==>
         var imp := disk[h].imports[i];
         && imp.dll in disk && Loadable(disk, rank, imp.dll)
         && NamesFound(imp.names, IndexOf(disk[imp.dll].exports))
  }

  ghost predicate ImportLoads(disk: map<qword, File>, rank: qword -> nat, imp: Import)
    requires Acyclic(disk, rank)
  {
    Loadable(disk, rank, imp.dll) && NamesFound(imp.names, IndexOf(disk[imp.dll].exports))
  }

  /** Whether a module can be loaded: the same, without the export directory. */
  ghost predicate FileLoads(disk: map<qword, File>, rank: qword -> nat, f: File)
    requires Acyclic(disk, rank)
  {
    && f.readable && f.relocatable
    && forall i :: 0 <= i < |f.imports| ==> ImportLoads(disk, rank, f.imports[i])
  }

  lemma LoadableIsFileLoads(disk: map<qword, File>, rank: qword -> nat, h: qword)
    requires Acyclic(disk, rank)
    ensures Loadable(disk, rank, h) <==> h in disk && disk[h].exportDir && FileLoads(disk, rank, disk[h])
  {
    if h in disk {
      forall i | 0 <= i < |disk[h].imports|
        ensures ImportLoads(disk, rank, disk[h].imports[i]) <==>
          var imp := disk[h].imports[i];
          imp.dll in disk && Loadable(disk, rank, imp.dll) && NamesFound(imp.names, IndexOf(disk[imp.dll].exports))
      {
      }
    }
  }

  /** Every cached library is referenced, other than `but`. */
  ghost predicate ReferencedBut(libs: map<qword, Library>, but: set<qword>) {
    forall h :: h in libs && h !in but ==> libs[h].refCount > 0
  }

  // ----- the references from outside determine the cache -----

  lemma {:induction false} CachedThere(disk: map<qword, File>, rank: qword -> nat, a: map<qword, Library>,
                                       b: map<qword, Library>, outside: multiset<qword>, h: qword, top: nat)
    requires Acyclic(disk, rank) && FromDisk(a, disk, rank) && FromDisk(b, disk, rank)
    requires Counted(a, outside) && Counted(b, outside) && ReferencedBut(a, {})
    requires h in a && forall g :: g in a ==> rank(g) <= top
    ensures h in b
    decreases top - rank(h)
  {
    if outside[h] == 0 {
      assert AllRefs(a)[h] > 0;
      var g := RefIsHeld(a, h);
      assert CameFrom(a[g], disk, rank, g);
      ImportRank(disk, rank, g, h, a[g]);
      CachedThere(disk, rank, a, b, outside, g, top);
      assert CameFrom(b[g], disk, rank, g);
      HeldIsRef(b, g, h);
      assert h in AllRefs(b) + outside;
    } else {
      assert h in AllRefs(b) + outside;
    }
  }

  lemma ImportRank(disk: map<qword, File>, rank: qword -> nat, g: qword, h: qword, lib: Library)
    requires Acyclic(disk, rank) && CameFrom(lib, disk, rank, g) && h in lib.refs
    ensures h in disk && rank(h) < rank(g)
  {
    var i :| 0 <= i < |lib.refs| && lib.refs[i] == h;
    assert disk[g].imports[i].dll == h;
  }

  lemma {:induction false} TopRank(rank: qword -> nat, s: set<qword>) returns (top: nat)
    ensures forall g :: g in s ==> rank(g) <= top
  {
    if s == {} {
      top := 0;
    } else {
      var k :| k in s;
      var rest := TopRank(rank, s - {k});
      top := if rank(k) > rest then rank(k) else rest;
      assert forall g :: g in s ==> g == k || g in s - {k};
    }
  }

  /** Two caches with the same references from outside, in which nothing is unreferenced, are equal. */
  lemma OutsideDetermines(disk: map<qword, File>, rank: qword -> nat, a: map<qword, Library>, b: map<qword, Library>,
                          outside: multiset<qword>)
    requires Acyclic(disk, rank) && FromDisk(a, disk, rank) && FromDisk(b, disk, rank)
    requires Counted(a, outside) && Counted(b, outside) && ReferencedBut(a, {}) && ReferencedBut(b, {})
    ensures a == b
  {
    var top := TopRank(rank, a.Keys);
    var top' := TopRank(rank, b.Keys);
    forall h
      ensures h in a <==> h in b
    {
      if h in a { CachedThere(disk, rank, a, b, outside, h, top); }
      if h in b { CachedThere(disk, rank, b, a, outside, h, top'); }
    }
    assert a.Keys == b.Keys;
    forall h | h in a
      ensures a[h].refs == b[h].refs && a[h].index == b[h].index
    {
      assert CameFrom(a[h], disk, rank, h) && CameFrom(b[h], disk, rank, h);
    }
    AllRefsSame(a, b);
    forall h | h in a
      ensures a[h] == b[h]
    {
      assert a[h].refCount == b[h].refCount;
    }
  }

  /** With no references from outside, nothing is cached. */
  lemma NoReferencesNoCache(disk: map<qword, File>, rank: qword -> nat, libs: map<qword, Library>)
    requires Acyclic(disk, rank) && FromDisk(libs, disk, rank) && Counted(libs, multiset{}) && ReferencedBut(libs, {})
    ensures libs == map[]
  {
    OutsideDetermines(disk, rank, libs, map[], multiset{});
  }

  // ----- single changes -----

  lemma Reference(libs: map<qword, Library>, outside: multiset<qword>, h: qword)
    requires Counted(libs, outside) && h in libs
    ensures Counted(libs[h := libs[h].(refCount := libs[h].refCount + 1)], outside + multiset{h})
  {
    hide AllRefs;
    AllRefsSame(libs, libs[h := libs[h].(refCount := libs[h].refCount + 1)]);
  }

  lemma Dereference(libs: map<qword, Library>, outside: multiset<qword>, h: qword)
    requires Counted(libs, outside + multiset{h})
    ensures h in libs && libs[h].refCount > 0
    ensures Counted(libs[h := libs[h].(refCount := libs[h].refCount - 1)], outside)
  {
    hide AllRefs;
    assert h in AllRefs(libs) + (outside + multiset{h});
    AllRefsSame(libs, libs[h := libs[h].(refCount := libs[h].refCount - 1)]);
  }

  lemma Insert(libs: map<qword, Library>, outside: multiset<qword>, h: qword, refs: seq<qword>, index: seq<seq<Func>>)
    requires Counted(libs, outside + multiset(refs)) && h !in libs
    ensures Counted(libs[h := Library(0, refs, index)], outside)
  {
    AllRefsAdd(libs, h, Library(0, refs, index));
    assert h !in AllRefs(libs) + (outside + multiset(refs));
  }

  lemma Remove(libs: map<qword, Library>, outside: multiset<qword>, h: qword)
    requires Counted(libs, outside) && h in libs && libs[h].refCount == 0
    ensures Counted(libs - {h}, outside + multiset(libs[h].refs))
  {
    AllRefsRemove(libs, h);
  }

  // ----- the hash chains -----

  const CHAINS := 256

  ghost predicate NoRepeats(chain: seq<qword>) {
    forall i, j :: 0 <= i < j < |chain| ==> chain[i] != chain[j]
  }

  /** Chain `i` holds the cached libraries whose hash ends in `i`, each once. */
  ghost predicate GoodChain(chain: seq<qword>, i: nat, keys: set<qword>) {
    && NoRepeats(chain)
    && (forall h :: h in chain ==> h % CHAINS == i && h in keys)
    && (forall h :: h in keys && h % CHAINS == i ==> h in chain)
  }

  /** Every cached library is in the chain of its hash, once, and nothing else is. */
  ghost predicate Chained(chains: seq<seq<qword>>, keys: set<qword>) {
    |chains| == CHAINS && forall i :: 0 <= i < CHAINS ==> GoodChain(chains[i], i, keys)
  }

  /** The chain without what is not in `keys`. */
  ghost function Keep(chain: seq<qword>, keys: set<qword>): seq<qword>
  {
    if chain == [] then []
    else (if chain[0] in keys then [chain[0]] else []) + Keep(chain[1..], keys)
  }

  lemma {:induction false} KeepAppend(a: seq<qword>, b: seq<qword>, keys: set<qword>)
    ensures Keep(a + b, keys) == Keep(a, keys) + Keep(b, keys)
  {
    if a == [] {
      assert a + b == b;
    } else {
      assert (a + b)[1..] == a[1..] + b;
      KeepAppend(a[1..], b, keys);
      Bytes.Assoc(if a[0] in keys then [a[0]] else [], Keep(a[1..], keys), Keep(b, keys));
    }
  }

  lemma {:induction false} KeepAll(chain: seq<qword>, keys: set<qword>)
    requires forall h :: h in chain ==> h in keys
    ensures Keep(chain, keys) == chain
  {
    if chain != [] {
      forall h | h in chain[1..]
        ensures h in keys
      {
        assert h in chain;
      }
      KeepAll(chain[1..], keys);
    }
  }

  lemma {:induction false} KeepNone(chain: seq<qword>, keys: set<qword>)
    requires forall h :: h in chain ==> h !in keys
    ensures Keep(chain, keys) == []
  {
    if chain != [] {
      forall h | h in chain[1..]
        ensures h !in keys
      {
        assert h in chain;
      }
      KeepNone(chain[1..], keys);
    }
  }

  lemma {:induction false} KeepTwice(chain: seq<qword>, more: set<qword>, keys: set<qword>)
    requires keys <= more
    ensures Keep(Keep(chain, more), keys) == Keep(chain, keys)
  {
    if chain != [] {
      KeepTwice(chain[1..], more, keys);
      KeepAppend(if chain[0] in more then [chain[0]] else [], Keep(chain[1..], more), keys);
      assert Keep([chain[0]], keys) == if chain[0] in keys then [chain[0]] else [] by { assert [chain[0]][1..] == []; }
    }
  }

  lemma OnlyThere(chain: seq<qword>, p: nat, x: qword)
    requires NoRepeats(chain) && p < |chain|
    ensures x in chain[..p] || x in chain[p + 1..] ==> x in chain && x != chain[p]
  {
  }

  lemma UnlinkTail(chain: seq<qword>, p: nat)
    requires 0 < p < |chain|
    ensures [chain[0]] + (chain[1..][..p - 1] + chain[1..][p..]) == chain[..p] + chain[p + 1..]
  {
    assert chain[1..][..p - 1] == chain[1..p] && chain[1..][p..] == chain[p + 1..];
    assert chain[..p] == [chain[0]] + chain[1..p];
    Bytes.Assoc([chain[0]], chain[1..p], chain[p + 1..]);
  }

  lemma TailOf(chain: seq<qword>)
    requires chain != [] && NoRepeats(chain)
    ensures NoRepeats(chain[1..]) && forall h :: h in chain[1..] ==> h in chain && h != chain[0]
  {
  }

  lemma {:induction false} KeepUnlinks(chain: seq<qword>, p: nat, keys: set<qword>)
    requires NoRepeats(chain) && p < |chain| && forall h :: h in chain ==> h in keys
    ensures Keep(chain, keys - {chain[p]}) == chain[..p] + chain[p + 1..]
    decreases p
  {
    var rest, tail := keys - {chain[p]}, chain[1..];
    TailOf(chain);
    if p == 0 {
      KeepAll(tail, rest);
      assert chain[..0] + chain[1..] == tail;
    } else {
      assert chain[0] in chain && chain[0] in rest;
      KeepUnlinks(tail, p - 1, keys);
      UnlinkTail(chain, p);
      hide NoRepeats;
    }
  }

  /** Every chain of `b` begins with the chain of `a`. */
  ghost predicate Extends(a: seq<seq<qword>>, b: seq<seq<qword>>) {
    |b| == |a| && forall i :: 0 <= i < |a| ==> a[i] <= b[i]
  }

  /** The chains of `b` are those of `a` without what is not in `keys`. */
  ghost predicate KeptIn(a: seq<seq<qword>>, b: seq<seq<qword>>, keys: set<qword>) {
    |b| == |a| && forall i :: 0 <= i < |a| ==> b[i] == Keep(a[i], keys)
  }

  lemma ExtendsTrans(a: seq<seq<qword>>, b: seq<seq<qword>>, c: seq<seq<qword>>)
    requires Extends(a, b) && Extends(b, c)
    ensures Extends(a, c)
  {
  }

  lemma KeptTwice(a: seq<seq<qword>>, b: seq<seq<qword>>, c: seq<seq<qword>>, more: set<qword>, keys: set<qword>)
    requires KeptIn(a, b, more) && KeptIn(b, c, keys) && keys <= more
    ensures KeptIn(a, c, keys)
  {
    forall i | 0 <= i < |a|
      ensures c[i] == Keep(a[i], keys)
    {
      KeepTwice(a[i], more, keys);
    }
  }

  lemma KeptSelf(a: seq<seq<qword>>, keys: set<qword>)
    requires Chained(a, keys)
    ensures KeptIn(a, a, keys)
  {
    forall i | 0 <= i < |a|
      ensures Keep(a[i], keys) == a[i]
    {
      KeepAll(a[i], keys);
    }
  }

  /** The cache is sound: `outside` holds the references of modules that are not cached. */
  ghost predicate SoundCache(libs: map<qword, Library>, buckets: seq<seq<qword>>, disk: map<qword, File>,
                             rank: qword -> nat, outside: multiset<qword>, but: set<qword>)
  {
    && Chained(buckets, libs.Keys) && Acyclic(disk, rank) && FromDisk(libs, disk, rank)
    && Counted(libs, outside) && ReferencedBut(libs, but)
  }

  lemma BehindPrefix(a: seq<qword>, b: seq<qword>, h: qword)
    requires NoRepeats(b) && a <= b && h in b[|a|..]
    ensures h !in a
  {
    forall j | 0 <= j < |a|
      ensures a[j] != h
    {
      assert a[j] == b[j];
    }
  }

  /** Growing the chains and then dropping what was not there before gives the chains back. */
  lemma GrowThenDrop(a: seq<seq<qword>>, b: seq<seq<qword>>, c: seq<seq<qword>>, keys: set<qword>, more: set<qword>)
    requires Chained(a, keys) && Chained(b, more) && Extends(a, b) && KeptIn(b, c, keys)
    ensures c == a
  {
    hide GoodChain;
    forall i | 0 <= i < CHAINS
      ensures c[i] == a[i]
    {
      assert GoodChain(a[i], i, keys) && GoodChain(b[i], i, more);
      DropGrown(a[i], b[i], i, keys, more);
    }
  }

  lemma DropGrown(a: seq<qword>, b: seq<qword>, i: nat, keys: set<qword>, more: set<qword>)
    requires GoodChain(a, i, keys) && GoodChain(b, i, more) && a <= b
    ensures Keep(b, keys) == a
  {
    var added := b[|a|..];
    forall h | h in added
      ensures h !in keys
    {
      BehindPrefix(a, b, h);
      assert h in b;
    }
    hide NoRepeats;
    assert b == a + added;
    KeepAppend(a, added, keys);
    KeepAll(a, keys);
    KeepNone(added, keys);
  }

  lemma AppendedChain(chain: seq<qword>, h: qword)
    requires NoRepeats(chain) && h !in chain
    ensures NoRepeats(chain + [h]) && chain <= chain + [h]
    ensures forall x :: x in chain + [h] <==> x in chain || x == h
  {
  }

  lemma ChainGrows(a: seq<seq<qword>>, keys: set<qword>, h: qword)
    requires Chained(a, keys) && h !in keys
    ensures Chained(a[h % CHAINS := a[h % CHAINS] + [h]], keys + {h})
    ensures |a| == CHAINS && Extends(a, a[h % CHAINS := a[h % CHAINS] + [h]])
  {
    var k := h % CHAINS;
    var b := a[k := a[k] + [h]];
    hide GoodChain;
    forall i | 0 <= i < CHAINS
      ensures GoodChain(b[i], i, keys + {h})
    {
      assert GoodChain(a[i], i, keys);
      if i == k { GrownGood(a[i], i, keys, h); } else { MoreGood(a[i], i, keys, h); }
    }
  }

  lemma GrownGood(chain: seq<qword>, i: nat, keys: set<qword>, h: qword)
    requires GoodChain(chain, i, keys) && h !in keys && h % CHAINS == i
    ensures GoodChain(chain + [h], i, keys + {h})
  {
    AppendedChain(chain, h);
    hide NoRepeats;
  }

  lemma MoreGood(chain: seq<qword>, i: nat, keys: set<qword>, h: qword)
    requires GoodChain(chain, i, keys) && h % CHAINS != i
    ensures GoodChain(chain, i, keys + {h})
  {
    hide NoRepeats;
  }

  lemma UnlinkedChain(chain: seq<qword>, p: nat)
    requires NoRepeats(chain) && p < |chain|
    ensures NoRepeats(chain[..p] + chain[p + 1..])
    ensures forall x :: x in chain[..p] + chain[p + 1..] <==> x in chain && x != chain[p]
  {
    var r := chain[..p] + chain[p + 1..];
    forall x
      ensures x in r <==> x in chain && x != chain[p]
    {
      OnlyThere(chain, p, x);
      if x in chain && x != chain[p] {
        var i :| 0 <= i < |chain| && chain[i] == x;
        assert r[if i < p then i else i - 1] == x;
      }
    }
  }

  lemma UnlinkedGood(chain: seq<qword>, i: nat, keys: set<qword>, p: nat)
    requires GoodChain(chain, i, keys) && p < |chain|
    ensures var r := chain[..p] + chain[p + 1..];
      GoodChain(r, i, keys - {chain[p]}) && r == Keep(chain, keys - {chain[p]})
  {
    UnlinkedChain(chain, p);
    KeepUnlinks(chain, p, keys);
    hide NoRepeats, Keep;
  }

  lemma OtherGood(chain: seq<qword>, i: nat, keys: set<qword>, h: qword)
    requires GoodChain(chain, i, keys) && h % CHAINS != i
    ensures GoodChain(chain, i, keys - {h}) && chain == Keep(chain, keys - {h})
  {
    hide NoRepeats;
    KeepAll(chain, keys - {h});
  }

  lemma ChainShrinks(a: seq<seq<qword>>, keys: set<qword>, h: qword, p: nat)
    requires Chained(a, keys) && h in keys && p < |a[h % CHAINS]| && a[h % CHAINS][p] == h
    ensures var b := a[h % CHAINS := a[h % CHAINS][..p] + a[h % CHAINS][p + 1..]];
      Chained(b, keys - {h}) && KeptIn(a, b, keys - {h})
  {
    var k := h % CHAINS;
    var r := a[k][..p] + a[k][p + 1..];
    var b := a[k := r];
    hide GoodChain;
    forall i | 0 <= i < CHAINS
      ensures GoodChain(b[i], i, keys - {h}) && b[i] == Keep(a[i], keys - {h})
    {
      assert GoodChain(a[i], i, keys);
      if i == k { UnlinkedGood(a[i], i, keys, p); } else { OtherGood(a[i], i, keys, h); }
    }
  }
}
