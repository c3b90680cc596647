/** The export index of a library: 64 buckets keyed by name hash, filled in table order. */
module PeExports {
  import opened Wrappers
  import opened Bytes

  type qword = x: int | 0 <= x < 0x1_0000_0000_0000_0000

  const BUCKETS := 64

  /** A cached function: its name, the hash of the name, and its address relative to the image. */
  datatype Func = Func(name: seq<byte>, hash: qword, rva: nat)

  /** A row of the export name table; rows whose name pointer is null are skipped. */
  datatype Row = NoName | Named(name: seq<byte>, rva: nat)

  function Xor(a: nat, b: nat): (x: nat)
    decreases a + b
  {
    if a == 0 && b == 0 then 0 else (a + b) % 2 + 2 * Xor(a / 2, b / 2)
  }

  /** The 64-bit FNV-1a hash `memhsh` computes. */
  function Memhsh(s: seq<byte>): qword {
    if s == [] then 14695981039346656037
    else Xor(Memhsh(s[..|s| - 1]), s[|s| - 1]) * 1099511628211 % 0x1_0000_0000_0000_0000
  }

  /** Bit `k` of a number. */
  function Bit(a: nat, k: nat): nat { if k == 0 then a % 2 else Bit(a / 2, k - 1) }

  lemma XorStep(a: nat, b: nat)
    ensures Xor(a, b) % 2 == (a % 2 + b % 2) % 2 && Xor(a, b) / 2 == Xor(a / 2, b / 2)
  {
    Halves(Xor(a / 2, b / 2), (a + b) % 2);
    Halves(a / 2 + b / 2, a % 2 + b % 2);
    assert a + b == 2 * (a / 2 + b / 2) + (a % 2 + b % 2);
    if a == 0 && b == 0 { assert Xor(0, 0) == 0; }
  }

  lemma Halves(x: nat, r: nat)
    ensures (2 * x + r) % 2 == r % 2 && (r < 2 ==> (2 * x + r) / 2 == x)
  {
  }

  /** `Xor` is the exclusive or, bit by bit. */
  lemma {:induction false} XorBits(a: nat, b: nat, k: nat)
    ensures Bit(Xor(a, b), k) == (Bit(a, k) + Bit(b, k)) % 2
  {
    XorStep(a, b);
    if k > 0 {
      hide Xor;
      XorBits(a / 2, b / 2, k - 1);
    }
  }

  /** The offset basis, the prime and the order of the two operations are those of 64-bit FNV-1a. */
  lemma HashStep(s: seq<byte>, b: byte)
    ensures Memhsh([]) == 0xCBF2_9CE4_8422_2325
    ensures Memhsh(s + [b]) == Xor(Memhsh(s), b) * 0x100_0000_01B3 % 0x1_0000_0000_0000_0000
  {
    assert (s + [b])[..|s|] == s;
  }

  method HashOf(s: seq<byte>) returns (hash: qword)
    ensures hash == Memhsh(s)
  {
    hash := 14695981039346656037;
    for i := 0 to |s|
      invariant hash == Memhsh(s[..i])
    {
      assert s[..i + 1][..i] == s[..i];
      hash := Xor(hash, s[i]) * 1099511628211 % 0x1_0000_0000_0000_0000;
    }
    assert s[..|s|] == s;
  }

  // ----- the table, read in order -----

  /** The first entry in table order whose name hashes to `hash`. */
  function FirstNamed(table: seq<Row>, hash: qword): Option<Func>
    decreases |table|
  {
    if table == [] then None
    else if table[0].Named? && Memhsh(table[0].name) == hash then Some(Func(table[0].name, hash, table[0].rva))
    else FirstNamed(table[1..], hash)
  }

  /** It is the first row in table order whose name has the hash. */
  lemma {:induction false} FirstInTableOrder(table: seq<Row>, hash: qword) returns (i: nat)
    ensures i <= |table| && forall j :: 0 <= j < i ==> table[j].Named? ==> Memhsh(table[j].name) != hash
    ensures i < |table| ==> table[i].Named? && Memhsh(table[i].name) == hash
    ensures FirstNamed(table, hash) == if i < |table| then Some(Func(table[i].name, hash, table[i].rva)) else None
    decreases |table|
  {
    hide Memhsh;
    i := 0;
    if table != [] && !(table[0].Named? && Memhsh(table[0].name) == hash) {
      var k := FirstInTableOrder(table[1..], hash);
      i := 1 + k;
    }
  }

  // ----- the index -----

  function FirstIn(chain: seq<Func>, hash: qword): Option<Func>
    decreases |chain|
  {
    if chain == [] then None else if chain[0].hash == hash then Some(chain[0]) else FirstIn(chain[1..], hash)
  }

  function Lookup(index: seq<seq<Func>>, hash: qword): Option<Func>
    requires |index| == BUCKETS
  {
    FirstIn(index[hash % BUCKETS], hash)
  }

  function Empty(): (index: seq<seq<Func>>)
    ensures |index| == BUCKETS
  {
    seq(BUCKETS, i => [])
  }

  function AddRow(index: seq<seq<Func>>, row: Row): (r: seq<seq<Func>>)
    requires |index| == BUCKETS
    ensures |r| == BUCKETS
  {
    if row.NoName? then index
    else
      var h := Memhsh(row.name);
      index[h % BUCKETS := index[h % BUCKETS] + [Func(row.name, h, row.rva)]]
  }

  function IndexOf(table: seq<Row>): (index: seq<seq<Func>>)
    ensures |index| == BUCKETS
  {
    if table == [] then Empty() else AddRow(IndexOf(table[..|table| - 1]), table[|table| - 1])
  }

  lemma {:induction false} FirstInAppend(a: seq<Func>, f: Func, hash: qword)
    ensures FirstIn(a + [f], hash) ==
      if FirstIn(a, hash).Some? then FirstIn(a, hash) else if f.hash == hash then Some(f) else None
  {
    if a == [] {
      assert a + [f] == [f] && [f][1..] == [];
    } else {
      assert (a + [f])[1..] == a[1..] + [f];
      FirstInAppend(a[1..], f, hash);
    }
  }

  lemma {:induction false} FirstNamedAppend(a: seq<Row>, row: Row, hash: qword)
    ensures FirstNamed(a + [row], hash) ==
      if FirstNamed(a, hash).Some? then FirstNamed(a, hash)
      else if row.Named? && Memhsh(row.name) == hash then Some(Func(row.name, hash, row.rva)) else None
  {
    if a == [] {
      assert a + [row] == [row] && [row][1..] == [];
    } else {
      assert (a + [row])[1..] == a[1..] + [row];
      FirstNamedAppend(a[1..], row, hash);
    }
  }

  /** Looking a hash up in the index finds the first row of the table with that hash. */
  lemma {:induction false} IndexAgreesWithTable(table: seq<Row>, hash: qword)
    ensures Lookup(IndexOf(table), hash) == FirstNamed(table, hash)
    decreases |table|
  {
    if table != [] {
      var init, row := table[..|table| - 1], table[|table| - 1];
      IndexAgreesWithTable(init, hash);
      assert table == init + [row];
      FirstNamedAppend(init, row, hash);
      hide Memhsh;
      if row.Named? {
        FirstInAppend(IndexOf(init)[Memhsh(row.name) % BUCKETS], Func(row.name, Memhsh(row.name), row.rva), hash);
      }
    }
  }

  // ----- the code's loops -----

  /** Fill the buckets from the name table, each entry at the end of its chain. */
  method BuildIndex(table: seq<Row>) returns (index: seq<seq<Func>>)
    ensures index == IndexOf(table)
  {
    index := Empty();
    for i := 0 to |table|
      invariant |index| == BUCKETS && index == IndexOf(table[..i])
    {
      assert table[..i + 1][..i] == table[..i];
      match table[i]
      case NoName =>
      case Named(name, rva) =>
        var h := HashOf(name);
        var chain := index[h % BUCKETS];
        var p := 0;
        while p < |chain|
          invariant p <= |chain|
        {
          p := p + 1;
        }
        index := index[h % BUCKETS := chain[..p] + [Func(name, h, rva)]];
        assert chain[..p] == chain;
    }
    assert table[..|table|] == table;
  }

  method FindFunction(index: seq<seq<Func>>, hash: qword) returns (found: Option<Func>)
    requires |index| == BUCKETS
    ensures found == Lookup(index, hash)
  {
    var chain := index[hash % BUCKETS];
    var i := 0;
    while i < |chain|
      invariant i <= |chain| && FirstIn(chain, hash) == FirstIn(chain[i..], hash)
    {
      if chain[i].hash == hash { return Some(chain[i]); }
      i := i + 1;
    }
    found := None;
  }

  /** The address of a function by name: the library's image plus the first match in table order. */
  method GetFunctionAddress(image: nat, table: seq<Row>, index: seq<seq<Func>>, name: seq<byte>)
    returns (address: Option<nat>)
    requires index == IndexOf(table)
    ensures address == match FirstNamed(table, Memhsh(name)) case None => None case Some(f) => Some(image + f.rva)
  {
    var hash := HashOf(name);
    var f := FindFunction(index, hash);
    IndexAgreesWithTable(table, hash);
    address := match f case None => None case Some(g) => Some(image + g.rva);
  }

  /** If no two exported names share a hash, a name that is exported is found under its own address. */
  lemma {:induction false} ExportedNameIsFound(table: seq<Row>, i: nat)
    requires i < |table| && table[i].Named?
    requires forall j :: 0 <= j < |table| && table[j].Named? && Memhsh(table[j].name) == Memhsh(table[i].name) ==>
        table[j] == table[i]
    ensures FirstNamed(table, Memhsh(table[i].name)) == Some(Func(table[i].name, Memhsh(table[i].name), table[i].rva))
    decreases |table|
  {
    hide Memhsh;
    if !(table[0].Named? && Memhsh(table[0].name) == Memhsh(table[i].name)) {
      ExportedNameIsFound(table[1..], i - 1);
    }
  }
}
