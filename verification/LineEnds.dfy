/** Which lines end. The differences of unsigned coordinates are never negative, so `DrawLine` takes none
    of them for its absolute value: only as an `int` does a difference get its sign. */
module LineEnds {
  import opened Bytes
  import opened LineDrawing

  // ----- the pen in closed form -----

  function Abs(a: int): nat { if a < 0 then 0 - a else a }

  /** `n * minor / major`, rounded half up. */
  function Rounded(n: nat, minor: nat, major: nat): nat {
    if major == 0 then n else (2 * (n * minor) + major) / (2 * major)
  }

  lemma QuotientIs(num: nat, d: nat, q: nat)
    requires d > 0 && q * d <= num < q * d + d
    ensures num / d == q
  {
    var r := num / d;
    assert r * d <= num < r * d + d;
    MoreThan(q, r, d);
    MoreThan(r, q, d);
  }

  lemma RoundedIs(n: nat, minor: nat, major: nat, c: nat)
    requires major == 0 ==> c == n
    requires major > 0 ==> 0 - major < 2 * (c * major - n * minor) <= major
    ensures Rounded(n, minor, major) == c
  {
    if major > 0 {
      assert c * (2 * major) == 2 * (c * major);
      QuotientIs(2 * (n * minor) + major, 2 * major, c);
    }
  }

  /** Halves go downwards when x is the longer axis, and to the right when y is. */
  predicate HalfUp(p: Pen, dx: nat, dy: nat) {
    (dx >= dy ==> dx == 0 || 0 - dx < Deviation(p, dx, dy)) && (dy >= dx ==> dy == 0 || Deviation(p, dx, dy) < dy)
  }

  lemma StepHalfUp(p: Pen, dx: nat, dy: nat)
    requires NearLine(p, dx, dy) && Consistent(p, dx, dy) && HalfUp(p, dx, dy)
    ensures HalfUp(Next(p, dx, dy), dx, dy)
  {
    DeviationOfNext(p, Next(p, dx, dy), dx, dy);
    hide Deviation;
  }

  lemma {:induction false} StaysHalfUp(dx: nat, dy: nat, n: nat)
    ensures HalfUp(After(dx, dy, n), dx, dy)
  {
    if n > 0 {
      hide HalfUp;
      StaysHalfUp(dx, dy, n - 1);
      StaysNear(dx, dy, n - 1);
      StepHalfUp(After(dx, dy, n - 1), dx, dy);
    }
  }

  /** After `n` turns the longer axis has advanced by `n`, and the other one by its rounded share. */
  lemma PenAt(dx: nat, dy: nat, n: nat)
    ensures var p := After(dx, dy, n);
      && (dx >= dy ==> p.a == n && p.b == Rounded(n, dy, dx)) && (dy >= dx ==> p.b == n && p.a == Rounded(n, dx, dy))
      && 2 * p.err == 2 * (p.b * dx - p.a * dy) + 2 * dx - 2 * dy
  {
    StaysNear(dx, dy, n);
    StaysHalfUp(dx, dy, n);
    var p := After(dx, dy, n);
    assert Deviation(p, dx, dy) == 2 * (p.b * dx - p.a * dy);
    hide After, Deviation, Rounded;
    if dx >= dy { RoundedIs(n, dy, dx, p.b); }
    if dy >= dx { RoundedIs(n, dx, dy, p.a); }
  }

  /** The turn that doubles an error term too large for an `int`, on a line shorter than 2^30. */
  lemma FarLineOverflows()
    ensures !Fits(0x3FFF_FFFE, 1)
  {
    var n := 0x1FFF_FFFF;
    PenAt(0x3FFF_FFFE, 1, n);
    assert Rounded(n, 1, 0x3FFF_FFFE) == 1;
    assert !TurnFits(After(0x3FFF_FFFE, 1, n), 0x3FFF_FFFE, 1);
  }

  // ----- lines in any direction -----

  /** `a` steps along an axis, in 32 bits. */
  function Moved(v: dword, a: nat, forward: bool): dword {
    (if forward then v + a else v - a) % 0x1_0000_0000
  }

  /** Where both differences have the sign of an advance, the positions are those of the pen, in the
      direction the coordinates are compared to have. */
  lemma {:induction false} ForwardIsPen(x0: dword, y0: dword, x1: dword, y1: dword, n: nat)
    requires AsInt(x1 - x0) >= 0 && AsInt(y0 - y1) <= 0
    ensures var p := After(AsInt(x1 - x0), 0 - AsInt(y0 - y1), n);
      Position(x0, y0, x1, y1, n) == Cursor(Moved(x0, p.a, x0 < x1), Moved(y0, p.b, y0 < y1), p.err)
  {
    if n > 0 {
      ForwardIsPen(x0, y0, x1, y1, n - 1);
      var p := After(AsInt(x1 - x0), 0 - AsInt(y0 - y1), n - 1);
      MovesOn(x0, p.a, x0 < x1);
      MovesOn(y0, p.b, y0 < y1);
      hide Moved, Stepped, AsInt;
    }
  }

  lemma MovesOn(v: dword, a: nat, forward: bool)
    ensures Stepped(Moved(v, a, forward), forward) == Moved(v, a + 1, forward)
  {
  }

  /** An axis stands at its end when it has advanced by the distance, up to multiples of 2^32. */
  lemma MovedToEnd(v0: dword, v1: dword, a: nat)
    ensures Moved(v0, a, v0 < v1) == v1 <==> a % 0x1_0000_0000 == Abs(v1 - v0)
  {
  }

  lemma NearIsInt(d: int)
    requires -0x8000_0000 <= d < 0x8000_0000
    ensures AsInt(d) == d
  {
  }

  lemma MovesPlainly(v: dword, w: dword, a: nat)
    requires v <= w && a <= w - v
    ensures Moved(v, a, v < w) == v + a
  {
  }

  /** To the right and down, these are the positions of the line. */
  lemma PositionIsPen(x0: dword, y0: dword, x1: dword, y1: dword, n: nat)
    requires 0 <= x1 - x0 < 0x8000_0000 && 0 <= y1 - y0 < 0x8000_0000 && n <= Max(x1 - x0, y1 - y0)
    ensures var p := After(x1 - x0, y1 - y0, n);
      p.a <= x1 - x0 && p.b <= y1 - y0 && Position(x0, y0, x1, y1, n) == Cursor(x0 + p.a, y0 + p.b, p.err)
  {
    hide *;
    NearIsInt(x1 - x0);
    NearIsInt(y0 - y1);
    EndReachedExactly(x1 - x0, y1 - y0, n);
    ForwardIsPen(x0, y0, x1, y1, n);
    var p := After(x1 - x0, y1 - y0, n);
    MovesPlainly(x0, x1, p.a);
    MovesPlainly(y0, y1, p.b);
  }

  /** To the right and down, the trail is the line. */
  lemma {:induction false} TrailIsLine(x0: dword, y0: dword, x1: dword, y1: dword, n: nat)
    requires 0 <= x1 - x0 < 0x8000_0000 && 0 <= y1 - y0 < 0x8000_0000 && n <= Max(x1 - x0, y1 - y0)
    ensures Trail(x0, y0, x1, y1, n + 1) == Points(x0, y0, x1 - x0, y1 - y0, n)
  {
    hide *;
    PositionIsPen(x0, y0, x1, y1, n);
    TrailUnfolds(x0, y0, x1, y1, n);
    if n > 0 { TrailIsLine(x0, y0, x1, y1, n - 1); }
  }

  lemma TrailUnfolds(x0: dword, y0: dword, x1: dword, y1: dword, n: nat)
    requires x0 <= x1 && y0 <= y1
    ensures var c := Position(x0, y0, x1, y1, n);
      Trail(x0, y0, x1, y1, n + 1) == (if n == 0 then [] else Trail(x0, y0, x1, y1, n)) + [(c.x as nat, c.y as nat)]
    ensures var p := After(x1 - x0, y1 - y0, n);
      Points(x0, y0, x1 - x0, y1 - y0, n) ==
      (if n == 0 then [] else Points(x0, y0, x1 - x0, y1 - y0, n - 1)) + [(x0 + p.a, y0 + p.b)]
  {
    hide After, Position;
  }

  /** Where a difference has the sign of a retreat, one coordinate never moves, and it is not the end's. */
  lemma {:induction false} StaysOff(x0: dword, y0: dword, x1: dword, y1: dword, n: nat)
    requires AsInt(x1 - x0) < 0 || AsInt(y0 - y1) > 0
    ensures var c := Position(x0, y0, x1, y1, n); var dx, dy := AsInt(x1 - x0), AsInt(y0 - y1);
      if dy <= 0 || dx + 2 * dy <= 0 then c.x == x0 != x1 && c.err <= dx + dy
      else if dx >= 0 || 2 * dx + dy >= 0 then c.y == y0 != y1 && c.err >= dx + dy
      else c == Cursor(x0, y0, dx + dy) && x0 != x1
  {
    if n > 0 {
      StaysOff(x0, y0, x1, y1, n - 1);
    }
  }

  // ----- which lines end -----

  ghost predicate Ends(x0: dword, y0: dword, x1: dword, y1: dword) {
    exists n: nat :: EndsAt(x0, y0, x1, y1, n)
  }

  /** The longer axis is at its end before turn `far + k * 2^32`; there the other one has to be at its end, too. */
  predicate MeetsAt(major: nat, minor: nat, far: nat, near: nat, k: nat) {
    Rounded(far + k * 0x1_0000_0000, minor, major) % 0x1_0000_0000 == near
  }

  ghost predicate Meets(major: nat, minor: nat, far: nat, near: nat) {
    exists k: nat :: k <= major && MeetsAt(major, minor, far, near, k)
  }

  /** A full round of the longer axis through all 32-bit values changes no meeting. */
  lemma RoundsRepeat(n: nat, minor: nat, major: nat, j: nat)
    requires major > 0
    ensures Rounded(n + j * major * 0x1_0000_0000, minor, major) == Rounded(n, minor, major) + j * minor * 0x1_0000_0000
  {
    var q := Rounded(n, minor, major);
    var num := 2 * (n * minor) + major;
    assert num == q * (2 * major) + num % (2 * major);
    var more := j * minor * 0x1_0000_0000;
    Distribute(n, j, minor, major, q);
    QuotientIs(2 * ((n + j * major * 0x1_0000_0000) * minor) + major, 2 * major, q + more);
  }

  lemma Distribute(n: nat, j: nat, minor: nat, major: nat, q: nat)
    ensures (n + j * major * 0x1_0000_0000) * minor == n * minor + j * minor * 0x1_0000_0000 * major
    ensures (q + j * minor * 0x1_0000_0000) * (2 * major) == q * (2 * major) + 2 * (j * minor * 0x1_0000_0000 * major)
  {
    assert j * major * 0x1_0000_0000 * minor == j * minor * 0x1_0000_0000 * major;
  }

  /** Where the sign is that of an advance, an end is a meeting. */
  lemma EndIsMeeting(minor: nat, major: nat, far: nat, near: nat, n: nat)
    requires n % 0x1_0000_0000 == far && Rounded(n, minor, major) % 0x1_0000_0000 == near
    requires major == 0 ==> far == near == 0
    ensures Meets(major, minor, far, near)
  {
    if major == 0 {
      assert MeetsAt(major, minor, far, near, 0);
    } else {
      hide Rounded;
      var k, j := FullRounds(n, major, far);
      RoundsRepeat(far + k * 0x1_0000_0000, minor, major, j);
      SameRemainder(Rounded(far + k * 0x1_0000_0000, minor, major), j * minor);
      assert MeetsAt(major, minor, far, near, k);
    }
  }

  lemma FullRounds(n: nat, major: nat, far: nat) returns (k: nat, j: nat)
    requires major > 0 && n % 0x1_0000_0000 == far
    ensures k < major && n == far + k * 0x1_0000_0000 + j * major * 0x1_0000_0000
  {
    var rounds := n / 0x1_0000_0000;
    k, j := rounds % major, rounds / major;
    assert rounds == j * major + k;
  }

  lemma SameRemainder(a: nat, k: nat)
    ensures (a + k * 0x1_0000_0000) % 0x1_0000_0000 == a % 0x1_0000_0000
  {
  }

  /** When a turn of such a line is at the end. */
  lemma EndOfAdvance(x0: dword, y0: dword, x1: dword, y1: dword, n: nat)
    requires AsInt(x1 - x0) >= 0 && AsInt(y0 - y1) <= 0
    ensures var dx, dy := AsInt(x1 - x0), 0 - AsInt(y0 - y1);
      EndsAt(x0, y0, x1, y1, n) <==>
      if dx >= dy then n % 0x1_0000_0000 == Abs(x1 - x0) && Rounded(n, dy, dx) % 0x1_0000_0000 == Abs(y1 - y0)
      else n % 0x1_0000_0000 == Abs(y1 - y0) && Rounded(n, dx, dy) % 0x1_0000_0000 == Abs(x1 - x0)
  {
    var dx, dy := AsInt(x1 - x0), 0 - AsInt(y0 - y1);
    ForwardIsPen(x0, y0, x1, y1, n);
    PenAt(dx, dy, n);
    var p := After(dx, dy, n);
    MovedToEnd(x0, x1, p.a);
    MovedToEnd(y0, y1, p.b);
    hide Moved, Rounded, After, Position, AsInt, Abs;
  }

  lemma AdvanceEnds(x0: dword, y0: dword, x1: dword, y1: dword)
    requires AsInt(x1 - x0) >= 0 && AsInt(y0 - y1) <= 0
    ensures var dx, dy := AsInt(x1 - x0), 0 - AsInt(y0 - y1);
      Ends(x0, y0, x1, y1) <==>
      if dx >= dy then Meets(dx, dy, Abs(x1 - x0), Abs(y1 - y0)) else Meets(dy, dx, Abs(y1 - y0), Abs(x1 - x0))
  {
    DifferenceOfNone(x0, x1);
    DifferenceOfNone(y0, y1);
    hide *;
    var dx, dy := AsInt(x1 - x0), 0 - AsInt(y0 - y1);
    var left, up := Abs(x1 - x0), Abs(y1 - y0);
    if Ends(x0, y0, x1, y1) {
      var n := SomeEnd(x0, y0, x1, y1);
      EndOfAdvance(x0, y0, x1, y1, n);
      if dx >= dy { EndIsMeeting(dy, dx, left, up, n); } else { EndIsMeeting(dx, dy, up, left, n); }
    }
    if dx >= dy && Meets(dx, dy, left, up) {
      var n := SomeMeeting(dx, dy, left, up);
      EndOfAdvance(x0, y0, x1, y1, n);
      AtEnd(x0, y0, x1, y1, n);
    }
    if dx < dy && Meets(dy, dx, up, left) {
      var n := SomeMeeting(dy, dx, up, left);
      EndOfAdvance(x0, y0, x1, y1, n);
      AtEnd(x0, y0, x1, y1, n);
    }
  }

  lemma DifferenceOfNone(v0: dword, v1: dword)
    ensures Abs(v1 - v0) < 0x1_0000_0000 && (AsInt(v1 - v0) == 0 || AsInt(v0 - v1) == 0 ==> Abs(v1 - v0) == 0)
  {
  }

  lemma AtEnd(x0: dword, y0: dword, x1: dword, y1: dword, n: nat)
    requires EndsAt(x0, y0, x1, y1, n)
    ensures Ends(x0, y0, x1, y1)
  {
    hide EndsAt;
  }

  lemma SomeEnd(x0: dword, y0: dword, x1: dword, y1: dword) returns (n: nat)
    requires Ends(x0, y0, x1, y1)
    ensures EndsAt(x0, y0, x1, y1, n)
  {
    hide EndsAt;
    n :| EndsAt(x0, y0, x1, y1, n);
  }

  lemma SomeMeeting(major: nat, minor: nat, far: nat, near: nat) returns (n: nat)
    requires Meets(major, minor, far, near) && far < 0x1_0000_0000
    ensures n % 0x1_0000_0000 == far && Rounded(n, minor, major) % 0x1_0000_0000 == near
  {
    hide Rounded;
    var k: nat :| k <= major && MeetsAt(major, minor, far, near, k);
    n := far + k * 0x1_0000_0000;
    SameRemainder(far, k);
  }

  /** The loop ends if and only if both differences have the sign of an advance and the axes meet their
      ends together. */
  lemma EndsExactly(x0: dword, y0: dword, x1: dword, y1: dword)
    ensures var dx, dy := AsInt(x1 - x0), 0 - AsInt(y0 - y1);
      Ends(x0, y0, x1, y1) <==>
      && dx >= 0 && dy >= 0
      && if dx >= dy then Meets(dx, dy, Abs(x1 - x0), Abs(y1 - y0)) else Meets(dy, dx, Abs(y1 - y0), Abs(x1 - x0))
  {
    hide Meets, AsInt, Abs, Position;
    if AsInt(x1 - x0) >= 0 && AsInt(y0 - y1) <= 0 {
      AdvanceEnds(x0, y0, x1, y1);
    } else {
      forall n: nat
        ensures !EndsAt(x0, y0, x1, y1, n)
      {
        StaysOff(x0, y0, x1, y1, n);
      }
    }
  }

  /** With both distances below 2^31 that is: the end lies neither to the left of the start nor above it. */
  lemma EndsOnlyRightAndDown(x0: dword, y0: dword, x1: dword, y1: dword)
    requires Abs(x1 - x0) < 0x8000_0000 && Abs(y1 - y0) < 0x8000_0000
    ensures Ends(x0, y0, x1, y1) <==> x0 <= x1 && y0 <= y1
  {
    hide Meets, EndsAt, Position;
    if x0 <= x1 && y0 <= y1 {
      EndIsReached(x0, y0, x1, y1);
    } else {
      EndsExactly(x0, y0, x1, y1);
      NearIsInt(x1 - x0);
      NearIsInt(y0 - y1);
    }
  }

  lemma EndIsReached(x0: dword, y0: dword, x1: dword, y1: dword)
    requires 0 <= x1 - x0 < 0x8000_0000 && 0 <= y1 - y0 < 0x8000_0000
    ensures EndsAt(x0, y0, x1, y1, Max(x1 - x0, y1 - y0))
  {
    var n := Max(x1 - x0, y1 - y0);
    PositionIsPen(x0, y0, x1, y1, n);
    EndReachedExactly(x1 - x0, y1 - y0, n);
    hide Position, After;
  }

  /** A horizontal or vertical line ends if and only if its difference has the sign of an advance. */
  lemma StraightLinesEnd(x0: dword, y0: dword, x1: dword, y1: dword)
    requires x0 == x1 || y0 == y1
    ensures Ends(x0, y0, x1, y1) <==> AsInt(x1 - x0) >= 0 && AsInt(y0 - y1) <= 0
  {
    hide Meets, Rounded;
    EndsExactly(x0, y0, x1, y1);
    var dx, dy := AsInt(x1 - x0), 0 - AsInt(y0 - y1);
    if dx >= 0 && dy == 0 {
      LevelMeets(dx, Abs(x1 - x0));
    } else if dx == 0 && dy > 0 {
      LevelMeets(dy, Abs(y1 - y0));
    }
  }

  lemma LevelMeets(major: nat, far: nat)
    requires major == 0 ==> far == 0
    ensures Meets(major, 0, far, 0)
  {
    assert MeetsAt(major, 0, far, 0, 0);
  }

  /** With both distances above 2^31 it is the other way round. */
  lemma LongLinesEnd(x0: dword, y0: dword, x1: dword, y1: dword)
    requires Abs(x1 - x0) > 0x8000_0000 && Abs(y1 - y0) > 0x8000_0000
    ensures Ends(x0, y0, x1, y1) <==> x1 < x0 && y1 < y0
  {
    hide Meets, Rounded;
    EndsExactly(x0, y0, x1, y1);
    var dx, dy := AsInt(x1 - x0), 0 - AsInt(y0 - y1);
    if x1 < x0 && y1 < y0 {
      if dx >= dy { WrapMeets(dx, dy); } else { WrapMeets(dy, dx); }
    }
  }

  /** Almost 2^32 rounds lead back to where the line would have come from. */
  lemma WrapMeets(major: nat, minor: nat)
    requires 0 < minor <= major < 0x8000_0000
    ensures Meets(major, minor, 0x1_0000_0000 - major, 0x1_0000_0000 - minor)
  {
    var n := 0xFFFF_FFFF * major;
    assert n * minor == 0xFFFF_FFFF * minor * major;
    RoundedIs(n, minor, major, 0xFFFF_FFFF * minor);
    EndIsMeeting(minor, major, 0x1_0000_0000 - major, 0x1_0000_0000 - minor, n);
  }

  /** A line to the left that ends: every turn moves one pixel to the left. */
  lemma FarLeftEnds()
    ensures EndsAt(0xC000_0001, 0, 0, 0, 0xC000_0001)
  {
    hide EndsAt;
    EndOfAdvance(0xC000_0001, 0, 0, 0, 0xC000_0001);
  }

  // ----- the size of the error term -----

  /** The error term stays within this bound, so a turn doubles it within an `int` as long as twice the bound is one. */
  lemma {:induction false} ErrorGrowth(x0: dword, y0: dword, x1: dword, y1: dword, n: nat)
    ensures var bound := (n + 1) * (Abs(AsInt(x1 - x0)) + Abs(AsInt(y0 - y1)));
      && Abs(Position(x0, y0, x1, y1, n).err) <= bound
      && (2 * bound < 0x8000_0000 ==> IsInt(2 * Position(x0, y0, x1, y1, n).err))
  {
    var d := Abs(AsInt(x1 - x0)) + Abs(AsInt(y0 - y1));
    if n > 0 {
      ErrorGrowth(x0, y0, x1, y1, n - 1);
      MulStep(n + 1, d);
      var c := Position(x0, y0, x1, y1, n - 1);
      TurnGrows(c, AsInt(x1 - x0), AsInt(y0 - y1), x0 < x1, y0 < y1);
      hide Turned;
    }
    hide AsInt;
  }

  lemma TurnGrows(c: Cursor, dx: int, dy: int, right: bool, down: bool)
    ensures Abs(Turned(c, dx, dy, right, down).err) <= Abs(c.err) + Abs(dx) + Abs(dy)
  {
  }

  /** On a line that has the sign of an advance it stays below three times the longer difference for ever. */
  lemma ErrorIsBounded(x0: dword, y0: dword, x1: dword, y1: dword, n: nat)
    requires AsInt(x1 - x0) >= 0 && AsInt(y0 - y1) <= 0
    ensures Abs(2 * Position(x0, y0, x1, y1, n).err) <= 3 * Max(AsInt(x1 - x0), 0 - AsInt(y0 - y1))
  {
    ForwardIsPen(x0, y0, x1, y1, n);
    StaysNear(AsInt(x1 - x0), 0 - AsInt(y0 - y1), n);
    hide Deviation, AsInt, Position;
  }
}
