/** Reading and writing files: a chain of clusters behaves as one byte sequence. */
module Fat32File {
  import opened Bytes
  import opened Fat32Volume
  import opened Fat32Mount
  import opened Fat32Names
  import opened Fat32Dir
  import opened Fat32Write

  /** An open file; the entry is its in-memory directory entry. */
  class FILE {
    const internal: FAT32Entry
    var size: nat

    constructor (entry: FAT32Entry)
      ensures internal == entry && size == entry.size as nat
    {
      internal, size := entry, entry.size;
    }
  }

  /** The driver's count of clusters for `size` bytes. */
  function ClustersFor(size: nat, bpc: nat): nat
    requires bpc > 0
  {
    if size != 0 then (size + bpc - 1) / bpc else 1
  }

  /** It is the least number of clusters, but for the one that an empty file owns, that hold `size` bytes. */
  lemma ClustersForIsLeast(size: nat, bpc: nat)
    requires bpc > 0
    ensures var n := ClustersFor(size, bpc);
      n > 0 && size <= n * bpc && forall m: nat :: m > 0 && size <= m * bpc ==> n <= m
  {
    var n := ClustersFor(size, bpc);
    if size > 0 {
      RoundUp(size, bpc, n);
      if n == 0 { MulLe(n, 0, bpc); }
      forall m: nat | m > 0 && size <= m * bpc
        ensures n <= m
      {
        if m < n {
          MulLe(m, n - 1, bpc);
          MulStep(n, bpc);
        }
      }
    }
  }

  /** A file of `size` bytes stored in chain `cs`. */
  ghost predicate IsFile(v: Volume, cs: seq<nat>, size: nat)
  {
    WellFormed(v) && IsChain(v, cs) && |cs| == ClustersFor(size, v.bpc)
  }

  /** The file's bytes; see `FileFits` for why the chain holds them. */
  function Content(v: Volume, cs: seq<nat>, size: nat): seq<byte> {
    if Within(cs, |v.data|) && size <= |Load(v, cs)| then Load(v, cs)[..size] else []
  }

  lemma RoundUp(size: nat, bpc: nat, n: nat)
    requires bpc > 0 && n == (size + bpc - 1) / bpc
    ensures size <= n * bpc < size + bpc
  {
    assert size + bpc - 1 == bpc * n + (size + bpc - 1) % bpc;
  }

  lemma RoundUpMonotonic(a: nat, b: nat, bpc: nat)
    requires bpc > 0 && a <= b
    ensures (a + bpc - 1) / bpc <= (b + bpc - 1) / bpc
  {
    var x, y := (a + bpc - 1) / bpc, (b + bpc - 1) / bpc;
    RoundUp(a, bpc, x);
    RoundUp(b, bpc, y);
    if y < x { MulLe(y, x - 1, bpc); MulStep(x, bpc); }
  }

  lemma FileFits(v: Volume, cs: seq<nat>, size: nat)
    requires IsFile(v, cs, size)
    ensures Within(cs, |v.data|) && |Load(v, cs)| == |cs| * v.bpc && size <= |Load(v, cs)|
    ensures |Content(v, cs, size)| == size
  {
    LoadLength(v, cs);
    if size != 0 { RoundUp(size, v.bpc, |cs|); }
  }

  // ----- one cluster of a chain -----

  /** Byte `a` of the chain's content is the first byte of its `k`-th cluster. */
  ghost predicate AtCluster(v: Volume, cs: seq<nat>, k: nat, a: nat)
  {
    k <= |cs| && a == k * v.bpc
  }

  lemma ClusterOfContent(v: Volume, cs: seq<nat>, k: nat, a: nat)
    requires WellFormed(v) && IsChain(v, cs) && k < |cs| && AtCluster(v, cs, k, a)
    ensures Within(cs, |v.data|) && IsCluster(v, cs[k]) && cs[k] < |v.fat| && |v.data[cs[k]]| == v.bpc
    ensures a + v.bpc <= |Load(v, cs)| && Load(v, cs)[a..a + v.bpc] == v.data[cs[k]]
    ensures AtCluster(v, cs, k + 1, a + v.bpc)
    ensures if k + 1 < |cs| then Next(v, cs[k]) == cs[k + 1] else Next(v, cs[k]) >= ENDOFCHAIN
  {
    assert IsCluster(v, cs[k]);
    LoadLength(v, cs);
    MulStep(k + 1, v.bpc);
    var b := FlattenPiece(Blocks(v, cs), v.bpc, k);
  }

  lemma ClusterUpdate(v: Volume, cs: seq<nat>, k: nat, a: nat, at: nat, d: seq<byte>)
    requires WellFormed(v) && IsChain(v, cs) && k < |cs| && AtCluster(v, cs, k, a) && at + |d| <= v.bpc
    requires Within(cs, |v.data|) && |v.data[cs[k]]| == v.bpc
    ensures a + v.bpc <= |Load(v, cs)|
    ensures Load(SetData(v, cs[k], Splice(v.data[cs[k]], at, d)), cs) == Splice(Load(v, cs), a + at, d)
  {
    var p := Splice(v.data[cs[k]], at, d);
    ChainIsDistinct(v, cs);
    LoadLength(v, cs);
    StoreOne(v, cs, k, p);
    hide IsChain, WellFormed;
    var b := FlattenUpdate(Blocks(v, cs), v.bpc, k, p);
    SpliceInside(Load(v, cs), a, v.bpc, at, d);
  }

  method SplitOffset(offset: nat, bytesPerCluster: nat, ghost v: Volume, ghost cs: seq<nat>)
    returns (clusterOffset: nat, byteOffset: nat, ghost a: nat)
    requires WellFormed(v) && IsChain(v, cs) && Within(cs, |v.data|) && bytesPerCluster == v.bpc
    requires offset <= |Load(v, cs)|
    ensures AtCluster(v, cs, clusterOffset, a) && clusterOffset <= |cs| && a + byteOffset == offset
    ensures byteOffset < v.bpc
  {
    LoadLength(v, cs);
    SplitBound(offset, v.bpc, |cs|);
    clusterOffset := offset / bytesPerCluster;
    byteOffset := offset % bytesPerCluster;
    a := offset - byteOffset;
  }

  lemma SplitBound(offset: nat, b: nat, n: nat)
    requires b > 0 && offset <= n * b
    ensures 0 <= offset / b <= n && offset - offset % b == offset / b * b
  {
    var q := offset / b;
    assert offset == b * q + offset % b;
    if q > n { MulLe(n + 1, q, b); MulStep(n + 1, b); }
  }

  /** The cluster and the offset in it where position `offset` of the content lies. */
  method Seek(mount: FAT32Mount, start: nat, offset: nat, ghost cs: seq<nat>)
    returns (cluster: nat, byteOffset: nat, ghost k: nat, ghost a: nat)
    requires mount.Valid() && IsChain(mount.Vol(), cs) && cs[0] == start
    requires Within(cs, |mount.Vol().data|) && offset <= |Load(mount.Vol(), cs)|
    ensures AtCluster(mount.Vol(), cs, k, a) && a + byteOffset == offset && byteOffset < mount.bytesPerCluster
    ensures if k < |cs| then cluster == cs[k] else cluster >= ENDOFCHAIN
  {
    hide mount.Vol, mount.Valid, IsChain, WellFormed, Load, AtCluster;
    var clusterOffset;
    clusterOffset, byteOffset, a := SplitOffset(offset, mount.bytesPerCluster, mount.Vol(), cs);
    cluster := mount.Walk(start, clusterOffset, cs);
    k := clusterOffset;
  }

  // ----- reading -----

  /** `readFAT32File`: the slice of the content that the file has at `offset`. The chain may be longer than
      the size calls for, as a failed write leaves it. */
  method ReadFile(mount: FAT32Mount, file: FILE, buffer: array<byte>, offset: nat, length: nat, ghost cs: seq<nat>)
    returns (totalBytesRead: nat)
    requires mount.Valid() && IsChain(mount.Vol(), cs) && cs[0] == file.internal.cluster as nat
    requires Within(cs, |mount.Vol().data|) && file.internal.size as int <= |Load(mount.Vol(), cs)|
    requires offset <= file.internal.size && length <= buffer.Length
    modifies buffer
    ensures mount.Valid() && mount.Vol() == old(mount.Vol())
    ensures totalBytesRead == Min(length, file.internal.size - offset)
    ensures |Content(mount.Vol(), cs, file.internal.size)| == file.internal.size as int
    ensures buffer[..totalBytesRead] == Content(mount.Vol(), cs, file.internal.size)[offset..offset + totalBytesRead]
    ensures buffer[totalBytesRead..] == old(buffer[totalBytesRead..])
  {
    ghost var v := mount.Vol();
    ghost var size: nat := file.internal.size;
    hide mount.Vol, mount.Valid, WellFormed, IsChain, Load, AtCluster, Within;
    var bytesLeft: nat := if offset + length > file.internal.size then file.internal.size - offset else length;
    var currentCluster, byteOffset;
    ghost var k, a;
    currentCluster, byteOffset, k, a := Seek(mount, file.internal.cluster, offset, cs);
    ghost var was := buffer[..];
    totalBytesRead := ReadClusters(mount, currentCluster, byteOffset, bytesLeft, buffer, cs, k, a);
    ReadDone(Load(v, cs), size, offset, bytesLeft, buffer[..], was);
  }

  /** The loop over the clusters read from, starting `byteOffset` bytes into the `k0`-th one. */
  method ReadClusters(mount: FAT32Mount, start: nat, byteOffset0: nat, length: nat, buffer: array<byte>,
                      ghost cs: seq<nat>, ghost k0: nat, ghost a0: nat) returns (totalBytesRead: nat)
    requires mount.Valid() && IsChain(mount.Vol(), cs) && Within(cs, |mount.Vol().data|)
    requires AtCluster(mount.Vol(), cs, k0, a0) && byteOffset0 < mount.bytesPerCluster
    requires (k0 < |cs| ==> start == cs[k0])
    requires length <= buffer.Length && a0 + byteOffset0 + length <= |Load(mount.Vol(), cs)|
    modifies buffer
    ensures totalBytesRead == length
    ensures buffer[..] == Splice(old(buffer[..]), 0, Load(mount.Vol(), cs)[a0 + byteOffset0..a0 + byteOffset0 + length])
  {
    hide mount.Vol, mount.Valid, WellFormed, IsChain, Load, AtCluster, Within, Splice;
    ghost var v := mount.Vol();
    ghost var content, offset := Load(v, cs), a0 + byteOffset0;
    ghost var k: nat, a: nat := k0, a0;
    var currentCluster, byteOffset, bytesLeft := start, byteOffset0, length;
    totalBytesRead := 0;
    ghost var was := buffer[..];
    SpliceNothing(was);
    while bytesLeft > 0
      invariant totalBytesRead + bytesLeft == length && 0 <= bytesLeft && 0 <= totalBytesRead
      invariant AtCluster(v, cs, k, a) && 0 <= byteOffset < v.bpc
      invariant bytesLeft > 0 ==> a + byteOffset == offset + totalBytesRead
      invariant k < |cs| ==> currentCluster == cs[k]
      invariant buffer[..] == Splice(was, 0, content[offset..offset + totalBytesRead])
    {
      InFile(v, cs, k, a, a + byteOffset);
      ClusterOfContent(v, cs, k, a);
      ghost var before := buffer[..];
      var toRead := ReadPart(mount, currentCluster, byteOffset, bytesLeft, buffer, totalBytesRead);
      ReadOn(content, offset, totalBytesRead, toRead, was, a, byteOffset, v.data[cs[k]]);
      bytesLeft := bytesLeft - toRead;
      totalBytesRead := totalBytesRead + toRead;
      byteOffset := 0;
      currentCluster := mount.GetNextCluster(currentCluster);
      k, a := k + 1, a + v.bpc;
    }
  }

  lemma SpliceNothing<T>(s: seq<T>)
    ensures Splice(s, 0, []) == s
  {
  }

  /** Reads one cluster and copies the part wanted of it. */
  method ReadPart(mount: FAT32Mount, cluster: nat, byteOffset: nat, bytesLeft: nat, buffer: array<byte>, at: nat)
    returns (toRead: nat)
    requires mount.Valid() && IsCluster(mount.Vol(), cluster) && byteOffset < mount.bytesPerCluster
    requires at + bytesLeft <= buffer.Length
    modifies buffer
    ensures toRead == Min(bytesLeft, mount.bytesPerCluster - byteOffset)
    ensures |mount.Vol().data[cluster]| == mount.bytesPerCluster
    ensures buffer[..] == Splice(old(buffer[..]), at, mount.Vol().data[cluster][byteOffset..byteOffset + toRead])
  {
    hide mount.Vol, mount.Valid;
    var buf := mount.ReadCluster(cluster);
    toRead := if bytesLeft > mount.bytesPerCluster - byteOffset then mount.bytesPerCluster - byteOffset else bytesLeft;
    CopyBytes(buffer, at, buf[byteOffset..byteOffset + toRead]);
  }

  lemma InFile(v: Volume, cs: seq<nat>, k: nat, a: nat, pos: nat)
    requires WellFormed(v) && IsChain(v, cs) && AtCluster(v, cs, k, a) && Within(cs, |v.data|)
    requires a <= pos < |Load(v, cs)|
    ensures k < |cs|
  {
    LoadLength(v, cs);
  }

  method CopyBytes(buffer: array<byte>, at: nat, data: seq<byte>)
    requires at + |data| <= buffer.Length
    modifies buffer
    ensures buffer[..] == Splice(old(buffer[..]), at, data)
  {
    hide Splice;
    SpliceNone(buffer[..], at);
    assert data[..0] == [];
    for off := 0 to |data|
      invariant buffer[..] == Splice(old(buffer[..]), at, data[..off])
    {
      SpliceNext(old(buffer[..]), at, data, off);
      buffer[at + off] := data[off];
    }
    assert data[..|data|] == data;
  }

  lemma SpliceNone(s: seq<byte>, at: nat)
    requires at <= |s|
    ensures Splice(s, at, []) == s
  {
  }

  lemma SpliceNext(s: seq<byte>, at: nat, data: seq<byte>, off: nat)
    requires off < |data| && at + |data| <= |s|
    ensures Splice(s, at, data[..off])[at + off := data[off]] == Splice(s, at, data[..off + 1])
  {
  }

  lemma ReadOn(content: seq<byte>, offset: nat, done: nat, n: nat, was: seq<byte>, a: nat, byteOffset: nat,
               buf: seq<byte>)
    requires done + n <= |was| && offset + done + n <= |content| && a + byteOffset == offset + done
    requires a + |buf| <= |content| && content[a..a + |buf|] == buf && byteOffset + n <= |buf|
    ensures Splice(Splice(was, 0, content[offset..offset + done]), done, buf[byteOffset..byteOffset + n])
         == Splice(was, 0, content[offset..offset + done + n])
  {
    SliceOfSlice(content, a, |buf|, byteOffset, byteOffset + n);
    SpliceTwice(was, 0, content[offset..offset + done], content[offset + done..offset + done + n]);
    var at := offset + done;
    assert content[offset..at] + content[at..at + n] == content[offset..at + n];
  }

  lemma ReadDone(content: seq<byte>, size: nat, offset: nat, n: nat, after: seq<byte>, was: seq<byte>)
    requires offset + n <= size <= |content| && n <= |was|
    requires after == Splice(was, 0, content[offset..offset + n])
    ensures after[..n] == content[..size][offset..offset + n] && after[n..] == was[n..]
  {
  }

  // ----- writing -----

  /** From `v` to `v'` only the bytes of chain `cs` changed, to `content`. */
  ghost predicate Rewritten(v: Volume, v': Volume, cs: seq<nat>, content: seq<byte>)
  {
    && v'.bpc == v.bpc && v'.fat == v.fat && |v'.data| == |v.data|
    && (forall c :: 0 <= c < |v.data| ==> |v'.data[c]| == |v.data[c]| && (c !in cs ==> v'.data[c] == v.data[c]))
    && Within(cs, |v'.data|) && Load(v', cs) == content
  }

  lemma RewriteOneMore(v: Volume, v1: Volume, cs: seq<nat>, content: seq<byte>, k: nat, a: nat, at: nat, d: seq<byte>)
    requires WellFormed(v1) && IsChain(v1, cs) && k < |cs| && AtCluster(v1, cs, k, a) && at + |d| <= v1.bpc
    requires Rewritten(v, v1, cs, content) && |v1.data[cs[k]]| == v1.bpc
    ensures a + v1.bpc <= |content|
    ensures Rewritten(v, SetData(v1, cs[k], Splice(v1.data[cs[k]], at, d)), cs, Splice(content, a + at, d))
  {
    ClusterUpdate(v1, cs, k, a, at, d);
    assert cs[k] in cs;
    hide Load, IsChain;
  }

  lemma SetDataKeepsChain(v: Volume, c: nat, p: seq<byte>, cs: seq<nat>, k: nat, a: nat)
    requires IsChain(v, cs) && AtCluster(v, cs, k, a) && c < |v.data|
    ensures IsChain(SetData(v, c, p), cs) && AtCluster(SetData(v, c, p), cs, k, a)
  {
  }

  /** The loop over the clusters written to, starting `byteOffset0` bytes into the `k0`-th one. */
  method WriteClusters(mount: FAT32Mount, start: nat, byteOffset0: nat, buffer: seq<byte>, ghost cs: seq<nat>,
                       ghost k0: nat, ghost a0: nat) returns (totalBytesWritten: nat)
    requires mount.Valid() && IsChain(mount.Vol(), cs) && Within(cs, |mount.Vol().data|)
    requires AtCluster(mount.Vol(), cs, k0, a0) && byteOffset0 < mount.bytesPerCluster
    requires (k0 < |cs| ==> start == cs[k0])
    requires a0 + byteOffset0 + |buffer| <= |Load(mount.Vol(), cs)|
    modifies mount.device
    ensures mount.Valid() && totalBytesWritten == |buffer|
    ensures Rewritten(old(mount.Vol()), mount.Vol(), cs, Splice(Load(old(mount.Vol()), cs), a0 + byteOffset0, buffer))
  {
    hide mount.Vol, mount.Valid, WellFormed, IsChain, Load, AtCluster, Within, Splice, Rewritten;
    ghost var v := mount.Vol();
    ghost var content, offset := Load(v, cs), a0 + byteOffset0;
    ghost var k: nat, a: nat := k0, a0;
    var currentCluster: nat, byteOffset: nat, bytesLeft: nat := start, byteOffset0, |buffer|;
    totalBytesWritten := 0;
    RewriteNothing(v, cs, offset);
    while bytesLeft > 0
      invariant totalBytesWritten + bytesLeft == |buffer| && 0 <= totalBytesWritten
      invariant mount.Valid() && IsChain(mount.Vol(), cs) && mount.Vol().bpc == v.bpc && Within(cs, |mount.Vol().data|)
      invariant AtCluster(mount.Vol(), cs, k, a) && byteOffset < v.bpc
      invariant bytesLeft > 0 ==> a + byteOffset == offset + totalBytesWritten
      invariant k < |cs| ==> currentCluster == cs[k]
      invariant Rewritten(v, mount.Vol(), cs, Splice(content, offset, buffer[..totalBytesWritten]))
    {
      ghost var v1 := mount.Vol();
      RewrittenLength(v, v1, cs, Splice(content, offset, buffer[..totalBytesWritten]));
      InFile(v1, cs, k, a, a + byteOffset);
      ClusterOfContent(v1, cs, k, a);
      var toWrite := WritePart(mount, currentCluster, byteOffset, buffer[totalBytesWritten..]);
      ghost var piece := buffer[totalBytesWritten..][..toWrite];
      RewriteOneMore(v, v1, cs, Splice(content, offset, buffer[..totalBytesWritten]), k, a, byteOffset, piece);
      SetDataKeepsChain(v1, cs[k], Splice(v1.data[cs[k]], byteOffset, piece), cs, k + 1, a + v.bpc);
      WriteOn(content, offset, buffer, totalBytesWritten, toWrite);
      bytesLeft := bytesLeft - toWrite;
      totalBytesWritten := totalBytesWritten + toWrite;
      byteOffset := 0;
      currentCluster := mount.GetNextCluster(currentCluster);
      k, a := k + 1, a + v.bpc;
    }
    assert buffer[..|buffer|] == buffer;
  }

  lemma RewriteNothing(v: Volume, cs: seq<nat>, offset: nat)
    requires Within(cs, |v.data|) && offset <= |Load(v, cs)|
    ensures Rewritten(v, v, cs, Splice(Load(v, cs), offset, []))
  {
    assert Splice(Load(v, cs), offset, []) == Load(v, cs);
  }

  lemma RewrittenLength(v: Volume, v': Volume, cs: seq<nat>, content: seq<byte>)
    requires Rewritten(v, v', cs, content)
    ensures Within(cs, |v'.data|) && Load(v', cs) == content
  {
  }

  lemma WriteOn(content: seq<byte>, offset: nat, buffer: seq<byte>, done: nat, n: nat)
    requires done + n <= |buffer| && offset + |buffer| <= |content|
    ensures Splice(Splice(content, offset, buffer[..done]), offset + done, buffer[done..][..n])
         == Splice(content, offset, buffer[..done + n])
  {
    SpliceTwice(content, offset, buffer[..done], buffer[done..][..n]);
    assert buffer[..done] + buffer[done..][..n] == buffer[..done + n];
  }

  /** Reads one cluster, patches the front of `data` into it and writes it back. */
  method WritePart(mount: FAT32Mount, cluster: nat, byteOffset: nat, data: seq<byte>) returns (toWrite: nat)
    requires mount.Valid() && IsCluster(mount.Vol(), cluster) && byteOffset < mount.bytesPerCluster
    modifies mount.device
    ensures mount.Valid() && toWrite == Min(|data|, mount.bytesPerCluster - byteOffset)
    ensures |old(mount.Vol()).data[cluster]| == mount.bytesPerCluster
    ensures mount.Vol() ==
      SetData(old(mount.Vol()), cluster, Splice(old(mount.Vol()).data[cluster], byteOffset, data[..toWrite]))
  {
    hide mount.Vol, mount.Valid;
    var buf := mount.ReadCluster(cluster);
    toWrite := if |data| > mount.bytesPerCluster - byteOffset then mount.bytesPerCluster - byteOffset else |data|;
    buf := Splice(buf, byteOffset, data[..toWrite]);
    var ok := mount.WriteCluster(buf, cluster);
  }
}
