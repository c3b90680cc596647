/** Byte strings, little-endian words and cutting a buffer into equal pieces. */
module Bytes {
  type byte = x: int | 0 <= x < 0x100
  type u32 = x: int | 0 <= x < 0x1_0000_0000

  function Min(a: int, b: int): int { if a < b then a else b }

  function Max(a: int, b: int): int { if a < b then b else a }

  function Zeros(n: nat): (s: seq<byte>)
    ensures |s| == n
  {
    seq(n, i => 0)
  }

  /** The content `s` with `d` laid over it from index `at` on, growing it when `d` reaches past the end. */
  function Splice<T>(s: seq<T>, at: nat, d: seq<T>): (r: seq<T>)
    requires at <= |s|
    ensures |r| == Max(|s|, at + |d|)
  {
    s[..at] + d + if at + |d| <= |s| then s[at + |d|..] else []
  }

  lemma Assoc<T>(a: seq<T>, b: seq<T>, c: seq<T>)
    ensures a + (b + c) == (a + b) + c
  {
  }

  // ----- little-endian words -----

  function Pow256(n: nat): (r: nat)
    ensures r > 0
  {
    if n == 0 then 1 else 0x100 * Pow256(n - 1)
  }

  function Dec(s: seq<byte>): (v: nat)
    ensures v < Pow256(|s|)
  {
    if s == [] then 0 else s[0] + 0x100 * Dec(s[1..])
  }

  function Enc(v: nat, n: nat): (s: seq<byte>)
    ensures |s| == n
  {
    if n == 0 then [] else [v % 0x100] + Enc(v / 0x100, n - 1)
  }

  lemma {:induction false} DecEnc(v: nat, n: nat)
    requires v < Pow256(n)
    ensures Dec(Enc(v, n)) == v
  {
    if n > 0 {
      DecEnc(v / 0x100, n - 1);
      assert Enc(v, n)[1..] == Enc(v / 0x100, n - 1);
    }
  }

  lemma {:induction false} EncDec(s: seq<byte>)
    ensures Enc(Dec(s), |s|) == s
  {
    if s != [] {
      EncDec(s[1..]);
      assert Dec(s) % 0x100 == s[0] && Dec(s) / 0x100 == Dec(s[1..]);
    }
  }

  lemma Pow256Values()
    ensures Pow256(4) == 0x1_0000_0000 && Pow256(8) == 0x1_0000_0000_0000_0000
  {
    assert Pow256(2) == 0x1_0000;
    assert Pow256(4) == 0x1_0000_0000;
    assert Pow256(6) == 0x1_0000_0000_0000;
  }

  lemma DecFirst(b: byte, s: seq<byte>)
    ensures Dec([b] + s) == b as int + 0x100 * Dec(s) && Pow256(|s| + 1) == 0x100 * Pow256(|s|)
  {
    assert ([b] + s)[1..] == s;
  }

  /** What is behind the first `|s|` bytes weighs `Pow256(|s|)` times as much. */
  lemma {:induction false} DecJoined(s: seq<byte>, t: seq<byte>)
    ensures Dec(s + t) == Dec(s) + Pow256(|s|) * Dec(t)
  {
    if s == [] {
      assert s + t == t;
    } else {
      DecJoined(s[1..], t);
      DecFirst(s[0], s[1..]);
      DecFirst(s[0], s[1..] + t);
      hide Dec, Pow256;
      assert s == [s[0]] + s[1..] && s + t == [s[0]] + (s[1..] + t);
      Weighed(Pow256(|s| - 1), Dec(t));
    }
  }

  lemma Weighed(w: nat, v: nat)
    ensures 0x100 * (w * v) == (0x100 * w) * v
  {
  }

  lemma TwoBytes(a: byte, b: byte)
    ensures Dec([a, b]) == a as int + 0x100 * b && Pow256(2) == 0x1_0000
  {
    DecFirst(b, []);
    DecFirst(a, [b]);
    assert [b] + [] == [b] && [a] + [b] == [a, b];
  }

  /** The least significant byte comes first. */
  lemma LittleEndian(a: byte, b: byte, c: byte, d: byte)
    ensures Dec([a, b]) == a as int + 0x100 * b && Enc(a as int + 0x100 * b, 2) == [a, b]
    ensures var w := a as int + 0x100 * b + 0x1_0000 * c + 0x100_0000 * d;
      Dec([a, b, c, d]) == w && Enc(w, 4) == [a, b, c, d]
  {
    hide *;
    TwoBytes(a, b);
    TwoBytes(c, d);
    DecJoined([a, b], [c, d]);
    assert [a, b] + [c, d] == [a, b, c, d];
    EncDec([a, b]);
    EncDec([a, b, c, d]);
  }

  // ----- equal pieces -----

  function Flatten<T>(ss: seq<seq<T>>): (s: seq<T>)
  {
    if ss == [] then [] else ss[0] + Flatten(ss[1..])
  }

  ghost predicate Uniform<T>(ss: seq<seq<T>>, w: nat)
  {
    forall i :: 0 <= i < |ss| ==> |ss[i]| == w
  }

  lemma {:induction false} FlattenAppend<T>(a: seq<seq<T>>, b: seq<seq<T>>)
    ensures Flatten(a + b) == Flatten(a) + Flatten(b)
  {
    if a == [] {
      assert a + b == b;
    } else {
      FlattenAppend(a[1..], b);
      assert (a + b)[1..] == a[1..] + b;
      Assoc(a[0], Flatten(a[1..]), Flatten(b));
    }
  }

  lemma {:induction false} FlattenLength<T>(ss: seq<seq<T>>, w: nat)
    requires Uniform(ss, w)
    ensures |Flatten(ss)| == |ss| * w
  {
    if ss != [] {
      FlattenLength(ss[1..], w);
      assert (|ss| - 1) * w + w == |ss| * w;
    }
  }

  /** Piece `q` of a uniform cut sits at offset `q * w` of the whole. */
  lemma {:induction false} FlattenPiece<T>(ss: seq<seq<T>>, w: nat, q: nat) returns (a: nat)
    requires Uniform(ss, w) && q < |ss|
    ensures a == q * w && a + w <= |Flatten(ss)|
    ensures Flatten(ss)[a..a + w] == ss[q]
    ensures Flatten(ss)[..a] == Flatten(ss[..q])
    ensures Flatten(ss)[a + w..] == Flatten(ss[q + 1..])
  {
    FlattenLength(ss[..q], w);
    a := |Flatten(ss[..q])|;
    assert ss == ss[..q] + ([ss[q]] + ss[q + 1..]);
    FlattenAppend(ss[..q], [ss[q]] + ss[q + 1..]);
    FlattenAppend([ss[q]], ss[q + 1..]);
    assert Flatten([ss[q]]) == ss[q] + Flatten<T>([]) == ss[q];
    assert Flatten(ss) == Flatten(ss[..q]) + ss[q] + Flatten(ss[q + 1..]);
  }

  lemma ThreeParts<T>(s: seq<T>, a: nat, b: nat)
    requires a <= b <= |s|
    ensures s == s[..a] + s[a..b] + s[b..]
  {
  }

  lemma FlattenUpdate<T>(ss: seq<seq<T>>, w: nat, q: nat, p: seq<T>) returns (a: nat)
    requires Uniform(ss, w) && q < |ss| && |p| == w
    ensures a == q * w && a + w <= |Flatten(ss)|
    ensures Flatten(ss)[a..a + w] == ss[q]
    ensures Flatten(ss[q := p]) == Flatten(ss)[..a] + p + Flatten(ss)[a + w..]
  {
    hide Flatten;
    a := FlattenPiece(ss, w, q);
    var b := FlattenPiece(ss[q := p], w, q);
    assert ss[q := p][..q] == ss[..q] && ss[q := p][q + 1..] == ss[q + 1..];
    ThreeParts(Flatten(ss[q := p]), a, a + w);
  }

  lemma FlattenIndex<T>(ss: seq<seq<T>>, w: nat, q: nat, r: nat)
    requires Uniform(ss, w) && q < |ss| && r < w
    ensures 0 <= q * w + r < |Flatten(ss)| && Flatten(ss)[q * w + r] == ss[q][r]
  {
    var a := FlattenPiece(ss, w, q);
    assert Flatten(ss)[a..a + w][r] == Flatten(ss)[a + r];
  }

  lemma FlattenSet<T>(ss: seq<seq<T>>, w: nat, q: nat, r: nat, x: T)
    requires Uniform(ss, w) && q < |ss| && r < w
    ensures 0 <= q * w + r < |Flatten(ss)|
    ensures Flatten(ss[q := ss[q][r := x]]) == Flatten(ss)[q * w + r := x]
  {
    hide Flatten;
    var a := FlattenUpdate(ss, w, q, ss[q][r := x]);
    SetInside(Flatten(ss), a, w, r, x);
  }

  lemma SliceOfSlice<T>(s: seq<T>, a: nat, w: nat, x: nat, y: nat)
    requires a + w <= |s| && x <= y <= w
    ensures s[a..a + w][x..y] == s[a + x..a + y]
  {
    var p, q := s[a..a + w][x..y], s[a + x..a + y];
    assert forall k :: 0 <= k < |p| ==> p[k] == s[a..a + w][x + k] == q[k];
  }

  lemma SetInside<T>(s: seq<T>, a: nat, w: nat, r: nat, x: T)
    requires a + w <= |s| && r < w
    ensures s[..a] + s[a..a + w][r := x] + s[a + w..] == s[a + r := x]
  {
  }

  /** The pieces of width `w` of `s`. */
  function Cut<T>(s: seq<T>, w: nat): (ss: seq<seq<T>>)
    requires w > 0
    ensures Uniform(ss, w)
    decreases |s|
  {
    if |s| < w then [] else [s[..w]] + Cut(s[w..], w)
  }

  lemma {:induction false} FlattenCut<T>(s: seq<T>, w: nat, n: nat)
    requires w > 0 && |s| == n * w
    ensures |Cut(s, w)| == n && Flatten(Cut(s, w)) == s
    decreases n
  {
    if n > 0 {
      MulStep(n, w);
      FlattenCut(s[w..], w, n - 1);
      assert Cut(s, w)[1..] == Cut(s[w..], w);
    }
  }

  // ----- products and division -----

  lemma MulStep(n: nat, w: nat)
    requires n > 0
    ensures n * w == w + (n - 1) * w && (n - 1) * w >= 0
  {
  }

  lemma MulLe(a: int, b: int, w: nat)
    requires a <= b
    ensures a * w <= b * w
  {
    assert (b - a) * w >= 0;
  }

  lemma DivMod(a: int, b: int, q: int, r: int)
    requires 0 <= r < b && a == q * b + r
    ensures a / b == q && a % b == r
  {
    var d := a / b - q;
    assert a == b * (a / b) + a % b;
    assert d * b == (a / b) * b - q * b;
    assert d * b == r - a % b;
    if d >= 1 { MulLe(1, d, b); }
    if d <= -1 { MulLe(d, -1, b); }
  }
}
