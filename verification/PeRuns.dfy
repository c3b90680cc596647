/** Runs of loading and unloading executables over one cache. */
module PeRuns {
  import opened PeExports
  import opened PeCache

  /** The cache and, for each loaded executable, the references it holds. */
  datatype State = State(libs: map<qword, Library>, buckets: seq<seq<qword>>, modules: seq<seq<qword>>)

  datatype Op = Load(file: File) | Unload(index: nat)

  ghost function Held(modules: seq<seq<qword>>): multiset<qword> {
    if modules == [] then multiset{} else Held(modules[..|modules| - 1]) + multiset(modules[|modules| - 1])
  }

  ghost predicate Good(s: State, disk: map<qword, File>, rank: qword -> nat) {
    SoundCache(s.libs, s.buckets, disk, rank, Held(s.modules), {})
  }

  /** One call, as `PeLoader.LoadFile` and `PeLoader.UnloadFile` specify it. */
  ghost predicate Step(s: State, op: Op, ok: bool, s': State, disk: map<qword, File>, rank: qword -> nat)
    requires Acyclic(disk, rank)
  {
    match op
    case Load(f) =>
      && (ok <==> FileLoads(disk, rank, f))
      && if ok then
           && s'.modules == s.modules + [Names(f.imports)] && Extends(s.buckets, s'.buckets)
           && SoundCache(s'.libs, s'.buckets, disk, rank, Held(s.modules) + multiset(Names(f.imports)), {})
         else s' == s
    case Unload(i) =>
      && i < |s.modules| && s'.modules == s.modules[..i] + s.modules[i + 1..] &&
          KeptIn(s.buckets, s'.buckets, s'.libs.Keys)
      && forall outside: multiset<qword> :: Held(s.modules) == outside + multiset(s.modules[i]) ==>
           SoundCache(s'.libs, s'.buckets, disk, rank, outside, {})
  }

  lemma {:induction false} HeldWithout(modules: seq<seq<qword>>, i: nat)
    requires i < |modules|
    ensures Held(modules) == Held(modules[..i] + modules[i + 1..]) + multiset(modules[i])
    decreases |modules|
  {
    var n := |modules| - 1;
    if i < n {
      var init, rest := modules[..n], modules[..i] + modules[i + 1..];
      HeldWithout(init, i);
      assert rest[..n - 1] == init[..i] + init[i + 1..] && rest[n - 1] == modules[n];
    } else {
      assert modules[..i] + modules[i + 1..] == modules[..n];
    }
  }

  lemma HeldWith(modules: seq<seq<qword>>, m: seq<qword>)
    ensures Held(modules + [m]) == Held(modules) + multiset(m)
  {
    assert (modules + [m])[..|modules|] == modules;
  }

  lemma StepKeeps(s: State, op: Op, ok: bool, s': State, disk: map<qword, File>, rank: qword -> nat)
    requires Acyclic(disk, rank) && Good(s, disk, rank) && Step(s, op, ok, s', disk, rank)
    ensures Good(s', disk, rank)
  {
    hide SoundCache, Held, Names, Extends, KeptIn, FileLoads;
    match op
    case Load(f) => HeldWith(s.modules, Names(f.imports));
    case Unload(i) => HeldWithout(s.modules, i);
  }

  /** Unloading what was just loaded gives back the exact cache, chain order included. */
  lemma UnloadUndoesLoad(s: State, f: File, s1: State, s2: State, disk: map<qword, File>, rank: qword -> nat)
    requires Acyclic(disk, rank) && Good(s, disk, rank)
    requires Step(s, Load(f), true, s1, disk, rank) && Step(s1, Unload(|s.modules|), true, s2, disk, rank)
    ensures s2 == s
  {
    StepKeeps(s, Load(f), true, s1, disk, rank);
    StepKeeps(s1, Unload(|s.modules|), true, s2, disk, rank);
    assert s2.modules == s.modules;
    hide Counted, FromDisk, Chained, KeptIn, Extends, FileLoads, Held;
    OutsideDetermines(disk, rank, s2.libs, s.libs, Held(s.modules));
    GrowThenDrop(s.buckets, s1.buckets, s2.buckets, s.libs.Keys, s1.libs.Keys);
  }

  /** When no executable is loaded, the cache is empty. */
  lemma NothingLoadedNothingCached(s: State, disk: map<qword, File>, rank: qword -> nat)
    requires Acyclic(disk, rank) && Good(s, disk, rank) && s.modules == []
    ensures s.libs == map[] && forall i :: 0 <= i < |s.buckets| ==> s.buckets[i] == []
  {
    NoReferencesNoCache(disk, rank, s.libs);
    EmptyChains(s.buckets, s.libs.Keys);
  }

  lemma EmptyChains(buckets: seq<seq<qword>>, keys: set<qword>)
    requires Chained(buckets, keys) && keys == {}
    ensures forall i :: 0 <= i < |buckets| ==> buckets[i] == []
  {
    forall i | 0 <= i < |buckets|
      ensures |buckets[i]| == 0
    {
      assert forall h :: h in buckets[i] ==> h in keys;
      FirstIsIn(buckets[i]);
    }
  }

  lemma FirstIsIn(chain: seq<qword>)
    ensures chain != [] ==> chain[0] in chain
  {
  }

  ghost predicate Run(ss: seq<State>, ops: seq<Op>, oks: seq<bool>, disk: map<qword, File>, rank: qword -> nat)
    requires Acyclic(disk, rank)
  {
    && |ss| == |ops| + 1 && |oks| == |ops|
    && forall i :: 0 <= i < |ops| ==> Step(ss[i], ops[i], oks[i], ss[i + 1], disk, rank)
  }

  /** In every run from the empty cache, every state is sound: each count is the number of
      references live modules hold, and whenever nothing is loaded, nothing is cached. */
  lemma {:induction false} RunKeeps(ss: seq<State>, ops: seq<Op>, oks: seq<bool>, disk: map<qword, File>,
                                    rank: qword -> nat)
    requires Acyclic(disk, rank) && Run(ss, ops, oks, disk, rank) && Good(ss[0], disk, rank)
    ensures forall i :: 0 <= i < |ss| ==> Good(ss[i], disk, rank) && (ss[i].modules == [] ==> ss[i].libs == map[])
    decreases |ops|
  {
    hide Good, Step;
    if ss[0].modules == [] { NothingLoadedNothingCached(ss[0], disk, rank); }
    if ops != [] {
      StepKeeps(ss[0], ops[0], oks[0], ss[1], disk, rank);
      RunKeeps(ss[1..], ops[1..], oks[1..], disk, rank);
      forall i | 0 <= i < |ss|
        ensures Good(ss[i], disk, rank) && (ss[i].modules == [] ==> ss[i].libs == map[])
      {
        if i > 0 { assert ss[1..][i - 1] == ss[i]; }
      }
    }
  }
}
