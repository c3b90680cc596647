/** The mount table: mounting, unmounting by swap-remove, and the longest-prefix lookup of paths. */
module MountTableModel {
  import opened Wrappers
  import opened Bytes

  const MAX_MOUNTED_DEVICES := 64
  const SLASH: byte := 0x2F

  /** A mount point, without its terminator, and the device behind it. */
  datatype FSMount = FSMount(mountPoint: seq<byte>, device: nat)

  // ----- what lookup means -----

  /** `point` is a non-empty prefix of `path` that ends where a component ends; "/" covers every absolute path. */
  predicate Covers(point: seq<byte>, path: seq<byte>) {
    && point != [] && point <= path
    && (|point| == |path| || path[|point|] == SLASH || point == [SLASH])
  }

  ghost predicate Distinct(ms: set<FSMount>) {
    forall a, b :: a in ms && b in ms && a.mountPoint == b.mountPoint ==> a == b
  }

  /** `m` is the mount with the longest mount point that covers `path`. */
  ghost predicate IsLongest(ms: set<FSMount>, path: seq<byte>, m: FSMount) {
    && m in ms && Covers(m.mountPoint, path)
    && forall o :: o in ms && Covers(o.mountPoint, path) ==> |o.mountPoint| <= |m.mountPoint|
  }

  /** The mount and the rest of the path, or that nothing covers the path. */
  ghost predicate IsMountOf(ms: set<FSMount>, path: seq<byte>, r: Option<(FSMount, seq<byte>)>) {
    match r
    case None => forall o :: o in ms ==> !Covers(o.mountPoint, path)
    case Some((m, rest)) => IsLongest(ms, path, m) && path == m.mountPoint + rest
  }

  /** No other answer would do. */
  ghost predicate OnlyMountOf(ms: set<FSMount>, path: seq<byte>, r: Option<(FSMount, seq<byte>)>) {
    forall s: Option<(FSMount, seq<byte>)> :: IsMountOf(ms, path, s) ==> s == r
  }

  /** The answer depends only on which mounts there are: not on their order in the table. */
  lemma MountIsUnique(ms: set<FSMount>, path: seq<byte>, r: Option<(FSMount, seq<byte>)>)
    requires Distinct(ms) && IsMountOf(ms, path, r)
    ensures OnlyMountOf(ms, path, r)
  {
    forall s: Option<(FSMount, seq<byte>)> | IsMountOf(ms, path, s)
      ensures s == r
    {
      match (r, s)
      case (Some((m, a)), Some((o, b))) =>
        assert |m.mountPoint| == |o.mountPoint|;
        assert m.mountPoint == path[..|m.mountPoint|] == o.mountPoint;
        assert a == path[|m.mountPoint|..] == b;
      case _ =>
    }
  }

  class MountTable {
    const mounted: array<FSMount>
    var mountedCount: nat

    ghost predicate Valid()
      reads this, mounted
    {
      && mounted.Length == MAX_MOUNTED_DEVICES && mountedCount <= MAX_MOUNTED_DEVICES
      && NoTwoAlike(mounted[..mountedCount])
    }

    ghost function Mounts(): set<FSMount>
      reads this, mounted
      requires mountedCount <= mounted.Length
    {
      Members(mounted[..mountedCount])
    }

    constructor ()
      ensures Valid() && Mounts() == {} && fresh(mounted)
    {
      mounted := new FSMount[MAX_MOUNTED_DEVICES](_ => FSMount([], 0));
      mountedCount := 0;
    }

    /** `accepted`: a registered file system recognises the device and mounts it. The code stores a new mount
        without looking whether the table is full. */
    method MountFileSystem(device: nat, mountPoint: seq<byte>, accepted: bool) returns (ok: bool)
      requires Valid()
      requires accepted && (forall m :: m in Mounts() ==> m.mountPoint != mountPoint) ==>
        mountedCount < MAX_MOUNTED_DEVICES
      modifies this`mountedCount, mounted
      ensures Valid()
      ensures ok <==> accepted && forall m :: m in old(Mounts()) ==> m.mountPoint != mountPoint
      ensures Mounts() == old(Mounts()) + if ok then {FSMount(mountPoint, device)} else {}
    {
      var i := 0;
      while i < mountedCount
        invariant i <= mountedCount && forall j :: 0 <= j < i ==> mounted[j].mountPoint != mountPoint
      {
        if mounted[i].mountPoint == mountPoint {
          assert mounted[i] in mounted[..mountedCount];
          return false;
        }
        i := i + 1;
      }
      if !accepted { return false; }
      AllDiffer(mounted[..mountedCount], mountPoint);
      ghost var before := mounted[..mountedCount];
      mounted[mountedCount] := FSMount(mountPoint, device);
      mountedCount := mountedCount + 1;
      assert mounted[..mountedCount] == before + [FSMount(mountPoint, device)];
      OneMoreMember(before, FSMount(mountPoint, device));
      ok := true;
    }

    /** The last mount moves into the gap. */
    method UnmountFileSystem(mountPoint: seq<byte>) returns (ok: bool)
      requires Valid()
      modifies this`mountedCount, mounted
      ensures Valid()
      ensures ok <==> exists m :: m in old(Mounts()) && m.mountPoint == mountPoint
      ensures Mounts() == set m | m in old(Mounts()) && m.mountPoint != mountPoint
    {
      var i := 0;
      ghost var before := mounted[..mountedCount];
      while i < mountedCount
        invariant i <= mountedCount == |before| && mounted[..mountedCount] == before
        invariant forall j :: 0 <= j < i ==> before[j].mountPoint != mountPoint
      {
        if mounted[i].mountPoint == mountPoint {
          assert before[i] == mounted[i] && before[i] in before;
          mountedCount := mountedCount - 1;
          mounted[i] := mounted[mountedCount];
          assert mounted[..mountedCount] == SwapRemoved(before, i);
          SwapRemove(before, i);
          return true;
        }
        i := i + 1;
      }
      ok := false;
    }

    method GetMount(path: seq<byte>) returns (r: Option<(FSMount, seq<byte>)>)
      requires Valid()
      ensures IsMountOf(Mounts(), path, r) && OnlyMountOf(Mounts(), path, r)
    {
      TableIsDistinct(mounted[..mountedCount]);
      hide OnlyMountOf, Distinct, NoTwoAlike;
      r := None;
      var longestMatch := 0;
      var i := 0;
      while i < mountedCount
        invariant i <= mountedCount && longestMatch == match r case None => 0 case Some((m, _)) => |m.mountPoint|
        invariant IsMountOf(Members(mounted[..i]), path, r)
      {
        var point := mounted[i].mountPoint;
        NextMember(mounted[..mountedCount], i);
        assert mounted[..mountedCount][..i] == mounted[..i] && mounted[..mountedCount][..i + 1] == mounted[..i + 1];
        var len := |point|;
        if len > longestMatch && len <= |path| && path[..len] == point {
          if len == |path| || path[len] == SLASH || (len == 1 && path[len - 1] == SLASH) {
            r := Some((mounted[i], path[len..]));
            longestMatch := len;
          }
        }
        i := i + 1;
      }
      assert mounted[..i] == mounted[..mountedCount];
      MountIsUnique(Mounts(), path, r);
    }
  }

  function Members(s: seq<FSMount>): set<FSMount> { set m | m in s }

  ghost predicate NoTwoAlike(s: seq<FSMount>) {
    forall i, j :: 0 <= i < j < |s| ==> s[i].mountPoint != s[j].mountPoint
  }

  /** A valid table lists every mount point once. */
  lemma TableIsDistinct(s: seq<FSMount>)
    requires NoTwoAlike(s)
    ensures Distinct(Members(s))
  {
  }

  lemma AllDiffer(s: seq<FSMount>, point: seq<byte>)
    requires forall j :: 0 <= j < |s| ==> s[j].mountPoint != point
    ensures forall m :: m in Members(s) ==> m.mountPoint != point
  {
  }

  lemma NextMember(s: seq<FSMount>, i: nat)
    requires i < |s|
    ensures Members(s[..i + 1]) == Members(s[..i]) + {s[i]}
  {
    assert s[..i + 1] == s[..i] + [s[i]];
  }

  lemma OneMoreMember(s: seq<FSMount>, m: FSMount)
    requires NoTwoAlike(s) && forall i :: 0 <= i < |s| ==> s[i].mountPoint != m.mountPoint
    ensures NoTwoAlike(s + [m]) && Members(s + [m]) == Members(s) + {m}
  {
  }

  function SwapRemoved(s: seq<FSMount>, i: nat): seq<FSMount>
    requires i < |s|
  {
    s[i := s[|s| - 1]][..|s| - 1]
  }

  lemma SwapRemove(s: seq<FSMount>, i: nat)
    requires NoTwoAlike(s) && i < |s|
    ensures NoTwoAlike(SwapRemoved(s, i))
    ensures Members(SwapRemoved(s, i)) == set m | m in Members(s) && m.mountPoint != s[i].mountPoint
  {
    var t := SwapRemoved(s, i);
    forall m
      ensures m in t <==> m in s && m.mountPoint != s[i].mountPoint
    {
      if m in t {
        var j :| 0 <= j < |t| && t[j] == m;
        assert s[if j == i then |s| - 1 else j] == m;
      }
      if m in s && m.mountPoint != s[i].mountPoint {
        var j :| 0 <= j < |s| && s[j] == m;
        assert t[if j == |s| - 1 then i else j] == m;
      }
    }
  }
}
