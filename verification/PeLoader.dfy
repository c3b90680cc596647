/** Loading and unloading executables and the libraries they import, through the shared cache. */
module PeLoaderModel {
  import opened Wrappers
  import opened PeExports
  import opened PeCache

  class PeLoader {
    /** The cached libraries by the hash of their names, and the 256 chains they hang in. */
    var libs: map<qword, Library>
    var buckets: seq<seq<qword>>
    const disk: map<qword, File>
    ghost const rank: qword -> nat

    ghost predicate Sound(outside: multiset<qword>, but: set<qword>)
      reads this
    {
      SoundCache(libs, buckets, disk, rank, outside, but)
    }

    constructor (files: map<qword, File>, ghost order: qword -> nat)
      requires Acyclic(files, order)
      ensures Sound(multiset{}, {}) && libs == map[] && disk == files && rank == order
    {
      libs, buckets := map[], seq(CHAINS, i => []);
      disk, rank := files, order;
    }

    // ----- the chains -----

    method FindLibrary(h: qword) returns (found: bool)
      requires Chained(buckets, libs.Keys)
      ensures found <==> h in libs
    {
      var chain := buckets[h % CHAINS];
      var i := 0;
      while i < |chain|
        invariant i <= |chain| && h !in chain[..i]
      {
        if chain[i] == h { return true; }
        i := i + 1;
      }
      assert chain[..i] == chain;
      found := false;
    }

    /** Append to the chain, at its end. */
    method Link(h: qword)
      requires |buckets| == CHAINS
      modifies this`buckets
      ensures buckets == old(buckets)[h % CHAINS := old(buckets)[h % CHAINS] + [h]]
    {
      var chain := buckets[h % CHAINS];
      var p := 0;
      while p < |chain|
        invariant p <= |chain|
      {
        p := p + 1;
      }
      buckets := buckets[h % CHAINS := chain[..p] + [h]];
      assert chain[..p] == chain;
    }

    method Unlink(h: qword)
      requires Chained(buckets, libs.Keys) && h in libs
      modifies this`buckets
      ensures Chained(buckets, libs.Keys - {h}) && KeptIn(old(buckets), buckets, libs.Keys - {h})
    {
      var chain := buckets[h % CHAINS];
      assert h in chain;
      var p := 0;
      if chain[0] != h {
        while p + 1 < |chain|
          invariant p < |chain| && forall j :: 0 <= j <= p ==> chain[j] != h
        {
          if chain[p + 1] == h { break; }
          p := p + 1;
        }
        p := p + 1;
      }
      ChainShrinks(buckets, libs.Keys, h, p);
      buckets := buckets[h % CHAINS := chain[..p] + chain[p + 1..]];
    }

    // ----- unloading -----

    method UnloadLibrary(h: qword, ghost outside: multiset<qword>)
      requires Sound(outside, {h}) && h in libs && libs[h].refCount == 0
      modifies this
      ensures Sound(outside, {})
      ensures libs.Keys <= old(libs.Keys) - {h} && KeptIn(old(buckets), buckets, libs.Keys)
      decreases |libs|, 0
    {
      ghost var all := libs.Keys;
      Unlink(h);
      Remove(libs, outside, h);
      Smaller(libs, h);
      var refs := libs[h].refs;
      StillFromDisk(libs, h, disk, rank);
      libs := libs - {h};
      assert libs.Keys == all - {h};
      hide Counted, FromDisk, Chained, KeptIn, AllRefs, Acyclic;
      ghost var mid, more := buckets, libs.Keys;
      UnloadFile(refs, outside);
      KeptTwice(old(buckets), mid, buckets, more, libs.Keys);
    }

    /** Drop every reference the module holds, and every library no longer referenced. */
    method UnloadFile(refs: seq<qword>, ghost outside: multiset<qword>)
      requires Sound(outside + multiset(refs), {})
      modifies this
      ensures Sound(outside, {})
      ensures libs.Keys <= old(libs.Keys) && KeptIn(old(buckets), buckets, libs.Keys)
      decreases |libs|, 1
    {
      hide Counted, FromDisk, Chained, KeptIn, AllRefs, Acyclic, IndexOf;
      assert refs[0..] == refs;
      KeptSelf(buckets, libs.Keys);
      var i := 0;
      while i < |refs|
        invariant i <= |refs|
        invariant Sound(outside + multiset(refs[i..]), {})
        invariant libs.Keys <= old(libs.Keys) && KeptIn(old(buckets), buckets, libs.Keys)
      {
        var h := refs[i];
        ghost var rest := outside + multiset(refs[i + 1..]);
        assert refs[i..] == [h] + refs[i + 1..];
        assert outside + multiset(refs[i..]) == rest + multiset{h};
        FewerKeys(libs.Keys, old(libs.Keys));
        ghost var mid, more := buckets, libs.Keys;
        Dereference(libs, rest, h);
        Recounted(libs, disk, rank, h, libs[h].refCount - 1);
        libs := libs[h := libs[h].(refCount := libs[h].refCount - 1)];
        assert libs.Keys == more;
        if libs[h].refCount == 0 {
          UnloadLibrary(h, rest);
          KeptTwice(old(buckets), mid, buckets, more, libs.Keys);
        }
        i := i + 1;
      }
      assert refs[i..] == [];
      assert outside + multiset(refs[i..]) == outside;
    }

    // ----- loading -----

    /** Look every imported function up in the library's export index, and store where it is. */
    method BindNames(names: seq<Option<qword>>, index: seq<seq<Func>>) returns (ok: bool, thunks: seq<nat>)
      requires |index| == BUCKETS
      ensures ok <==> NamesFound(names, index)
      ensures ok ==> thunks == Bound(names, index)
    {
      thunks := [];
      var i := 0;
      while i < |names|
        invariant i <= |names| && forall j :: 0 <= j < i ==> names[j].Some? && Lookup(index, names[j].value).Some?
        invariant thunks == Bound(names, index)[..i]
      {
        if names[i].None? { return false, thunks; }
        var f := FindFunction(index, names[i].value);
        if f.None? { return false, thunks; }
        thunks := thunks + [f.value.rva];
        i := i + 1;
      }
      ok := true;
    }

    /** Libraries that were not cached before rank below `r`. */
    ghost predicate RanksBelow(before: set<qword>, after: set<qword>, r: nat)
    {
      forall g :: g in after && g !in before ==> rank(g) < r
    }

    /** A failed call leaves no trace; a successful one leaves the library cached, unreferenced. */
    method LoadLibrary(h: qword, ghost outside: multiset<qword>) returns (ok: bool)
      requires Sound(outside, {}) && h !in libs
      modifies this
      ensures Acyclic(disk, rank) && (ok <==> Loadable(disk, rank, h))
      ensures !ok ==> libs == old(libs) && buckets == old(buckets)
      ensures ok ==> Sound(outside, {h}) && h in libs && Extends(old(buckets), buckets)
      ensures ok ==> old(libs.Keys) <= libs.Keys && RanksBelow(old(libs.Keys), libs.Keys, rank(h) + 1)
      decreases if h in disk then rank(h) + 1 else 0, 3
    {
      hide Counted, FromDisk, Chained, KeptIn, Extends, AllRefs, FileLoads, Loadable, IndexOf, CameFrom;
      LoadableIsFileLoads(disk, rank, h);
      if h !in disk { return false; }
      var f := disk[h];
      ImportsRankBelow(disk, rank, h);
      var refs, iat;
      ok, refs, iat := LoadFile(f, outside, rank(h));
      if !ok { return; }
      if !f.exportDir {
        ghost var mid, more := buckets, libs.Keys;
        UnloadFile(refs, outside);
        OutsideDetermines(disk, rank, libs, old(libs), outside);
        GrowThenDrop(old(buckets), mid, buckets, libs.Keys, more);
        return false;
      }
      var index := BuildIndex(f.exports);
      Insert(libs, outside, h, refs, index);
      NowFromDisk(libs, disk, rank, h, refs, index);
      ChainGrows(buckets, libs.Keys, h);
      ghost var mid, more := buckets, libs.Keys;
      Link(h);
      ExtendsTrans(old(buckets), mid, buckets);
      libs := libs[h := Library(0, refs, index)];
      assert libs.Keys == more + {h};
    }

    /** A failed call leaves no trace; after a successful one, the module holds a reference to every
        library it imports. */
    method LoadFile(f: File, ghost outside: multiset<qword>, ghost r: nat)
      returns (ok: bool, refs: seq<qword>, iat: seq<seq<nat>>)
      requires Sound(outside, {})
      requires forall i :: 0 <= i < |f.imports| && f.imports[i].dll in disk ==> rank(f.imports[i].dll) < r
      modifies this
      ensures Acyclic(disk, rank) && (ok <==> FileLoads(disk, rank, f))
      ensures !ok ==> libs == old(libs) && buckets == old(buckets)
      ensures ok ==> refs == Names(f.imports) && IsBound(disk, f.imports, iat)
      ensures ok ==> Sound(outside + multiset(refs), {}) && Extends(old(buckets), buckets)
      ensures ok ==> old(libs.Keys) <= libs.Keys && RanksBelow(old(libs.Keys), libs.Keys, r)
      decreases r + 1, 2
    {
      hide Counted, FromDisk, Chained, KeptIn, Extends, AllRefs, ImportLoads, Names, IsBound;
      refs, iat := [], [];
      if !f.readable { return false, refs, iat; }
      ok, refs, iat := ResolveImports(f, outside, r);
      if !ok || !f.relocatable {
        ghost var mid, more := buckets, libs.Keys;
        UnloadFile(refs, outside);
        OutsideDetermines(disk, rank, libs, old(libs), outside);
        GrowThenDrop(old(buckets), mid, buckets, libs.Keys, more);
        ok := false;
      }
    }

    method ResolveImports(f: File, ghost outside: multiset<qword>, ghost r: nat)
      returns (ok: bool, refs: seq<qword>, iat: seq<seq<nat>>)
      requires Sound(outside, {})
      requires forall i :: 0 <= i < |f.imports| && f.imports[i].dll in disk ==> rank(f.imports[i].dll) < r
      modifies this
      ensures Sound(outside + multiset(refs), {}) && Extends(old(buckets), buckets)
      ensures old(libs.Keys) <= libs.Keys && RanksBelow(old(libs.Keys), libs.Keys, r)
      ensures ok <==> forall i :: 0 <= i < |f.imports| ==> ImportLoads(disk, rank, f.imports[i])
      ensures ok ==> refs == Names(f.imports) && IsBound(disk, f.imports, iat)
      decreases r + 1, 1
    {
      hide Sound, Extends, RanksBelow, Loadable, NamesFound, IndexOf, Bound, BoundTo, ImportLoads;
      SoundIs(outside, {});
      ExtendsSelf(buckets);
      NoneNew(libs.Keys, r);
      refs, iat := [], [];
      assert outside + multiset(refs) == outside;
      var i := 0;
      while i < |f.imports|
        invariant i <= |f.imports| && refs == Names(f.imports)[..i]
        invariant Sound(outside + multiset(refs), {}) && Extends(old(buckets), buckets)
        invariant old(libs.Keys) <= libs.Keys && RanksBelow(old(libs.Keys), libs.Keys, r)
        invariant forall j :: 0 <= j < i ==> ImportLoads(disk, rank, f.imports[j])
        invariant |iat| == i && forall j :: 0 <= j < i ==> BoundTo(disk, f.imports[j], iat[j])
      {
        var imp := f.imports[i];
        ghost var mid, keys := buckets, libs.Keys;
        var found := Acquire(imp.dll, outside + multiset(refs), r);
        if !found {
          NotLoadable(disk, rank, imp);
          return false, refs, iat;
        }
        ExtendsTrans(old(buckets), mid, buckets);
        MoreNew(old(libs.Keys), keys, libs.Keys, r);
        assert outside + multiset(refs) + multiset{imp.dll} == outside + multiset(refs + [imp.dll]);
        refs := refs + [imp.dll];
        var good, thunks := BindNames(imp.names, libs[imp.dll].index);
        ImportChecked(disk, rank, imp, thunks);
        if !good { return false, refs, iat; }
        iat := iat + [thunks];
        i := i + 1;
      }
      ok := true;
    }

    /** The library of an import, from the cache or loaded, with one more reference to it. */
    method Acquire(h: qword, ghost outside: multiset<qword>, ghost r: nat) returns (ok: bool)
      requires Sound(outside, {}) && (h in disk ==> rank(h) < r)
      modifies this
      ensures Acyclic(disk, rank) && (ok <==> Loadable(disk, rank, h))
      ensures !ok ==> Sound(outside, {}) && libs == old(libs) && buckets == old(buckets)
      ensures ok ==> Sound(outside + multiset{h}, {}) && Extends(old(buckets), buckets)
      ensures ok ==> h in libs && h in disk && libs[h].index == IndexOf(disk[h].exports) && |libs[h].index| == BUCKETS
      ensures ok ==> old(libs.Keys) <= libs.Keys && RanksBelow(old(libs.Keys), libs.Keys, r)
      decreases r + 1, 0
    {
      hide Counted, FromDisk, Chained, Extends, AllRefs, Loadable, IndexOf;
      var cached := FindLibrary(h);
      if cached {
        ExtendsSelf(buckets);
      } else {
        ok := LoadLibrary(h, outside);
        if !ok { return; }
        LoadableOnDisk(disk, rank, h);
      }
      CachedIsLoadable(libs, disk, rank, h);
      Reference(libs, outside, h);
      Recounted(libs, disk, rank, h, libs[h].refCount + 1);
      ghost var more := libs.Keys;
      libs := libs[h := libs[h].(refCount := libs[h].refCount + 1)];
      assert libs.Keys == more;
      ok := true;
    }

    lemma SoundIs(outside: multiset<qword>, but: set<qword>)
      requires Sound(outside, but)
      ensures Acyclic(disk, rank)
    {
    }

    lemma NoneNew(keys: set<qword>, r: nat)
      ensures RanksBelow(keys, keys, r)
    {
    }

    lemma MoreNew(a: set<qword>, b: set<qword>, c: set<qword>, r: nat)
      requires RanksBelow(a, b, r) && RanksBelow(b, c, r)
      ensures RanksBelow(a, c, r)
    {
    }
  }

  lemma ExtendsSelf(a: seq<seq<qword>>)
    ensures Extends(a, a)
  {
  }

  lemma LoadableOnDisk(disk: map<qword, File>, rank: qword -> nat, h: qword)
    requires Acyclic(disk, rank) && Loadable(disk, rank, h)
    ensures h in disk
  {
  }

  lemma NotLoadable(disk: map<qword, File>, rank: qword -> nat, imp: Import)
    requires Acyclic(disk, rank) && !Loadable(disk, rank, imp.dll)
    ensures !ImportLoads(disk, rank, imp)
  {
    hide Loadable;
  }

  lemma ImportChecked(disk: map<qword, File>, rank: qword -> nat, imp: Import, thunks: seq<nat>)
    requires Acyclic(disk, rank) && Loadable(disk, rank, imp.dll) && imp.dll in disk
    ensures ImportLoads(disk, rank, imp) <==> NamesFound(imp.names, IndexOf(disk[imp.dll].exports))
    ensures thunks == Bound(imp.names, IndexOf(disk[imp.dll].exports)) ==> BoundTo(disk, imp, thunks)
  {
    hide Loadable, NamesFound, Bound, IndexOf;
  }

  lemma ImportsRankBelow(disk: map<qword, File>, rank: qword -> nat, h: qword)
    requires Acyclic(disk, rank) && h in disk
    ensures forall i :: 0 <= i < |disk[h].imports| && disk[h].imports[i].dll in disk ==>
        rank(disk[h].imports[i].dll) < rank(h)
  {
  }

  lemma CachedIsLoadable(libs: map<qword, Library>, disk: map<qword, File>, rank: qword -> nat, h: qword)
    requires Acyclic(disk, rank) && FromDisk(libs, disk, rank) && h in libs
    ensures Loadable(disk, rank, h) && h in disk && libs[h].index == IndexOf(disk[h].exports)
    ensures |libs[h].index| == BUCKETS
  {
    assert CameFrom(libs[h], disk, rank, h);
  }

  lemma NowFromDisk(libs: map<qword, Library>, disk: map<qword, File>, rank: qword -> nat, h: qword, refs: seq<qword>,
                    index: seq<seq<Func>>)
    requires Acyclic(disk, rank) && FromDisk(libs, disk, rank) && Loadable(disk, rank, h) && h in disk
    requires refs == Names(disk[h].imports) && index == IndexOf(disk[h].exports)
    ensures FromDisk(libs[h := Library(0, refs, index)], disk, rank)
  {
  }

  lemma FewerKeys<T>(a: set<T>, b: set<T>)
    requires a <= b
    ensures |a| <= |b|
  {
    if a != b {
      assert b == a + (b - a) && a !! (b - a);
      assert |b| == |a| + |b - a|;
    }
  }

  lemma StillFromDisk(libs: map<qword, Library>, h: qword, disk: map<qword, File>, rank: qword -> nat)
    requires Acyclic(disk, rank) && FromDisk(libs, disk, rank)
    ensures FromDisk(libs - {h}, disk, rank)
  {
  }

  /** Counts play no part in where a library came from. */
  lemma Recounted(libs: map<qword, Library>, disk: map<qword, File>, rank: qword -> nat, h: qword, n: nat)
    requires Acyclic(disk, rank) && FromDisk(libs, disk, rank) && h in libs
    ensures FromDisk(libs[h := libs[h].(refCount := n)], disk, rank)
  {
    assert CameFrom(libs[h], disk, rank, h);
  }
}
