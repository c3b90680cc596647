/** `DrawLine` of the frame buffer: Bresenham's error term keeps every pixel within half a pixel
    of the ideal line, and the loop stops exactly at the end point. */
module LineDrawing {
  import opened Bytes

  /** The steps taken so far in x and y, and the error term. */
  datatype Pen = Pen(a: nat, b: nat, err: int)

  /** One turn of the loop; `dx` and `dy` are the distances still positive, so the code's `dy` is `-dy`. */
  function Next(p: Pen, dx: nat, dy: nat): Pen {
    var e2 := 2 * p.err;
    var back: int := 0 - dy;
    var right := e2 >= back;
    var down := e2 <= dx;
    Pen(if right then p.a + 1 else p.a, if down then p.b + 1 else p.b,
        p.err - (if right then dy else 0) + if down then dx else 0)
  }

  function Start(dx: nat, dy: nat): Pen { Pen(0, 0, dx - dy) }

  function After(dx: nat, dy: nat, n: nat): Pen {
    if n == 0 then Start(dx, dy) else Next(After(dx, dy, n - 1), dx, dy)
  }

  /** Twice the distance from the ideal line, measured along the minor axis and scaled by the major one. */
  function Deviation(p: Pen, dx: nat, dy: nat): int { 2 * (p.b * dx - p.a * dy) }

  /** The point is within half a pixel of the ideal line. */
  predicate NearLine(p: Pen, dx: nat, dy: nat) {
    -Max(dx, dy) <= Deviation(p, dx, dy) <= Max(dx, dy)
  }

  predicate Consistent(p: Pen, dx: nat, dy: nat) {
    2 * p.err == Deviation(p, dx, dy) + 2 * dx - 2 * dy
  }

  lemma DeviationOfNext(p: Pen, q: Pen, dx: nat, dy: nat)
    requires q.a == p.a || q.a == p.a + 1
    requires q.b == p.b || q.b == p.b + 1
    ensures Deviation(q, dx, dy) ==
            Deviation(p, dx, dy) + 2 * (if q.b > p.b then dx else 0) - 2 * if q.a > p.a then dy else 0
  {
    assert (p.b + 1) * dx == p.b * dx + dx;
    assert (p.a + 1) * dy == p.a * dy + dy;
  }

  /** A step keeps the point near the line and always advances along the longer axis. */
  lemma StepStaysNear(p: Pen, dx: nat, dy: nat)
    requires NearLine(p, dx, dy) && Consistent(p, dx, dy)
    ensures var q := Next(p, dx, dy);
      && NearLine(q, dx, dy) && Consistent(q, dx, dy)
      && (dx >= dy ==> q.a == p.a + 1) && (dy >= dx ==> q.b == p.b + 1)
      && p.a <= q.a <= p.a + 1 && p.b <= q.b <= p.b + 1
  {
    DeviationOfNext(p, Next(p, dx, dy), dx, dy);
    hide Deviation;
  }

  /** After `n` turns the longer axis has advanced by `n`, and the point is near the line. */
  lemma {:induction false} StaysNear(dx: nat, dy: nat, n: nat)
    ensures var p := After(dx, dy, n);
      && NearLine(p, dx, dy) && Consistent(p, dx, dy)
      && (dx >= dy ==> p.a == n) && (dy >= dx ==> p.b == n)
  {
    if n > 0 {
      StaysNear(dx, dy, n - 1);
      StepStaysNear(After(dx, dy, n - 1), dx, dy);
    }
  }

  /** After `max(dx, dy)` turns the end point is reached, and not before; no axis overshoots. */
  lemma EndReachedExactly(dx: nat, dy: nat, n: nat)
    requires n <= Max(dx, dy)
    ensures var p := After(dx, dy, n); p.a <= dx && p.b <= dy && ((p.a == dx && p.b == dy) <==> n == Max(dx, dy))
  {
    StaysNear(dx, dy, n);
    var p := After(dx, dy, n);
    hide After;
    if dx >= dy {
      Between(p.b, dy, n, dx, Deviation(p, dx, dy));
    } else {
      Between(p.a, dx, n, dy, -Deviation(p, dx, dy));
    }
  }

  lemma MoreThan(a: nat, b: nat, w: nat)
    ensures a > b ==> a * w >= b * w + w
  {
    if a > b {
      MulLe(b + 1, a, w);
      assert (b + 1) * w == b * w + w;
    }
  }

  /** With `n` of `major` steps taken, a minor coordinate near the line is at most `minor`, and equals it at the end. */
  lemma Between(c: nat, minor: nat, n: nat, major: nat, dev: int)
    requires minor <= major && n <= major && dev == 2 * (c * major - n * minor) && dev <= major && dev + major >= 0
    requires major == 0 ==> c == n
    ensures c <= minor && (n == major ==> c == minor)
  {
    MulLe(n, major, minor);
    MoreThan(c, minor, major);
    MoreThan(minor, c, major);
  }

  // ----- 32-bit arithmetic -----

  type dword = x: int | 0 <= x < 0x1_0000_0000
  type int32 = x: int | -0x8000_0000 <= x < 0x8000_0000

  /** A difference of 32-bit words, converted to an `int`. */
  function AsInt(d: int): int32 {
    var w := d % 0x1_0000_0000;
    if w < 0x8000_0000 then w else w - 0x1_0000_0000
  }

  predicate IsInt(v: int) { -0x8000_0000 <= v < 0x8000_0000 }

  /** Everything this turn computes is an `int`. */
  predicate TurnFits(p: Pen, dx: nat, dy: nat) {
    IsInt(2 * p.err) && (2 * p.err + dy >= 0 ==> IsInt(p.err - dy)) && IsInt(Next(p, dx, dy).err)
  }

  /** So is everything the loop computes until it ends. */
  ghost predicate Fits(dx: nat, dy: nat) {
    dx < 0x8000_0000 && dy < 0x8000_0000 && forall n: nat :: n < Max(dx, dy) ==> TurnFits(After(dx, dy, n), dx, dy)
  }

  /** A bound that is enough; `FarLineOverflows` shows that below 2^30 is not. */
  lemma ShortLinesFit(dx: nat, dy: nat)
    requires 3 * Max(dx, dy) < 0x8000_0000
    ensures Fits(dx, dy)
  {
    forall n: nat | n < Max(dx, dy)
      ensures TurnFits(After(dx, dy, n), dx, dy)
    {
      StaysNear(dx, dy, n);
      StaysNear(dx, dy, n + 1);
      hide Deviation;
    }
  }

  // ----- the frame buffer -----

  /** The points drawn from `n` turns on. */
  function Points(x0: nat, y0: nat, dx: nat, dy: nat, n: nat): (r: seq<(nat, nat)>)
    ensures |r| == n + 1
  {
    var p := After(dx, dy, n);
    (if n == 0 then [] else Points(x0, y0, dx, dy, n - 1)) + [(x0 + p.a, y0 + p.b)]
  }

  /** The points of the line from `(x0, y0)` to `(x1, y1)`. */
  function Line(x0: nat, y0: nat, x1: nat, y1: nat): seq<(nat, nat)>
    requires x0 <= x1 && y0 <= y1
  {
    Points(x0, y0, x1 - x0, y1 - y0, Max(x1 - x0, y1 - y0))
  }

  lemma {:induction false} PointAt(x0: nat, y0: nat, dx: nat, dy: nat, n: nat, i: nat)
    requires i <= n
    ensures Points(x0, y0, dx, dy, n)[i] == (x0 + After(dx, dy, i).a, y0 + After(dx, dy, i).b)
  {
    if i < n { PointAt(x0, y0, dx, dy, n - 1, i); }
  }

  /** Every point of the line is within half a pixel of the ideal line. */
  lemma LineIsNear(x0: nat, y0: nat, x1: nat, y1: nat, i: nat)
    requires x0 <= x1 && y0 <= y1 && i <= Max(x1 - x0, y1 - y0)
    ensures var q := Line(x0, y0, x1, y1)[i]; var dx, dy := x1 - x0, y1 - y0;
      x0 <= q.0 && y0 <= q.1 && -Max(dx, dy) <= 2 * ((q.1 - y0) * dx - (q.0 - x0) * dy) <= Max(dx, dy)
  {
    var dx, dy := x1 - x0, y1 - y0;
    PointAt(x0, y0, dx, dy, Max(dx, dy), i);
    StaysNear(dx, dy, i);
    var p := After(dx, dy, i);
    assert -Max(dx, dy) <= 2 * (p.b * dx - p.a * dy) <= Max(dx, dy);
    hide *;
  }

  /** The line starts and ends at its end points, has one point per step of the longer axis, and
      consecutive points are neighbours. */
  lemma LineIsConnected(x0: nat, y0: nat, x1: nat, y1: nat, i: nat)
    requires x0 <= x1 && y0 <= y1 && i <= Max(x1 - x0, y1 - y0)
    ensures var l := Line(x0, y0, x1, y1);
      && |l| == Max(x1 - x0, y1 - y0) + 1 && l[0] == (x0, y0) && l[|l| - 1] == (x1, y1)
      && x0 <= l[i].0 <= x1 && y0 <= l[i].1 <= y1
      && (i > 0 ==> l[i] != l[i - 1])
      && (i > 0 ==> l[i - 1].0 <= l[i].0 <= l[i - 1].0 + 1 && l[i - 1].1 <= l[i].1 <= l[i - 1].1 + 1)
  {
    hide *;
    var n := LineLength(x0, y0, x1, y1);
    LinePoint(x0, y0, x1, y1, 0);
    LinePoint(x0, y0, x1, y1, n);
    LinePoint(x0, y0, x1, y1, i);
    if i > 0 {
      LinePoint(x0, y0, x1, y1, i - 1);
      Neighbours(x1 - x0, y1 - y0, i);
    }
  }

  lemma LineLength(x0: nat, y0: nat, x1: nat, y1: nat) returns (n: nat)
    requires x0 <= x1 && y0 <= y1
    ensures n == Max(x1 - x0, y1 - y0) && |Line(x0, y0, x1, y1)| == n + 1 && (n == 0 ==> x0 == x1 && y0 == y1)
  {
    n := Max(x1 - x0, y1 - y0);
  }

  lemma LinePoint(x0: nat, y0: nat, x1: nat, y1: nat, i: nat)
    requires x0 <= x1 && y0 <= y1 && i <= Max(x1 - x0, y1 - y0)
    ensures |Line(x0, y0, x1, y1)| == Max(x1 - x0, y1 - y0) + 1
    ensures var p := After(x1 - x0, y1 - y0, i);
      && Line(x0, y0, x1, y1)[i] == (x0 + p.a, y0 + p.b) && p.a <= x1 - x0 && p.b <= y1 - y0
      && (i == 0 ==> p.a == 0 && p.b == 0) && (i == Max(x1 - x0, y1 - y0) ==> p.a == x1 - x0 && p.b == y1 - y0)
  {
    var dx, dy := x1 - x0, y1 - y0;
    PointAt(x0, y0, dx, dy, Max(dx, dy), i);
    EndReachedExactly(dx, dy, i);
    assert After(dx, dy, 0) == Start(dx, dy);
    hide After, Points;
  }

  lemma Neighbours(dx: nat, dy: nat, i: nat)
    requires i > 0
    ensures var p, q := After(dx, dy, i - 1), After(dx, dy, i);
      && p.a <= q.a <= p.a + 1 && p.b <= q.b <= p.b + 1 && (p.a != q.a || p.b != q.b)
  {
    StaysNear(dx, dy, i - 1);
    hide Next, NearLine, Consistent;
    StepStaysNear(After(dx, dy, i - 1), dx, dy);
  }

  class FrameBuffer {
    const width: nat
    const height: nat
    const pixelsPerScan: nat
    const pixels: array<dword>

    /** Pixel numbers are computed in 32 bits. */
    ghost predicate Valid() {
      width <= pixelsPerScan && height * pixelsPerScan <= pixels.Length && height * pixelsPerScan <= 0x1_0000_0000
    }

    constructor (w: nat, h: nat, scan: nat, memory: array<dword>)
      requires w <= scan && h * scan <= memory.Length && h * scan <= 0x1_0000_0000
      ensures Valid() && width == w && height == h && pixelsPerScan == scan && pixels == memory
    {
      width, height, pixelsPerScan, pixels := w, h, scan, memory;
    }

    method SetPixel(x: nat, y: nat, color: dword)
      requires Valid()
      modifies pixels
      ensures pixels[..] == Plot(old(pixels[..]), this.width, this.height, this.pixelsPerScan, (x, y), color)
    {
      if x >= width || y >= height { return; }
      IndexInside(x, y, width, height, pixelsPerScan);
      var idx: dword := y * pixelsPerScan + x;
      pixels[idx] := color;
    }

    /** For lines to the right and down on which nothing exceeds an `int`. */
    method DrawLine(x0: dword, y0: dword, x1: dword, y1: dword, color: dword)
      requires Valid() && x0 <= x1 && y0 <= y1 && Fits(x1 - x0, y1 - y0)
      modifies pixels
      ensures pixels[..] ==
              PlotAll(old(pixels[..]), this.width, this.height, this.pixelsPerScan, Line(x0, y0, x1, y1), color)
    {
      assert width <= pixelsPerScan && height * pixelsPerScan <= pixels.Length;
      ghost var m, down: nat := pixels[..], y1 - y0;
      FirstTurn(x1 - x0, down);
      hide *;
      var dx: int32 := x1 - x0;
      var dy: int32 := -(y1 - y0);
      var err: int32 := dx + dy;
      var x: nat, y: nat := x0, y0;
      ghost var n, p := 0, Start(dx, down);
      Begin(m, width, height, pixelsPerScan, x0, y0, dx, down, color);
      while true
        invariant p == After(dx, down, n) && x == x0 + p.a && y == y0 + p.b && err == p.err
        invariant n <= Max(dx, down)
        invariant pixels[..] == Drawn(m, width, height, pixelsPerScan, x0, y0, dx, down, n, color)
        decreases Max(dx, down) - n
      {
        PlotLast(m, width, height, pixelsPerScan, x0, y0, dx, down, n, color);
        SetPixel(x, y, color);
        EndReachedExactly(dx, down, n);
        if x == x1 && y == y1 {
          AllDrawn(m, width, height, pixelsPerScan, x0, y0, x1, y1, n, color);
          break;
        }
        p := Turn(dx, down, n, p);
        var e2: int32 := 2 * err;
        if e2 >= dy { err, x := err + dy, x + 1; }
        if e2 <= dx { err, y := err + dx, y + 1; }
        n := n + 1;
      }
    }

    /** The same loop for a line in any direction, cut off before turn `turns`. */
    method DrawTurns(x0: dword, y0: dword, x1: dword, y1: dword, color: dword, turns: nat) returns (done: bool, n: nat)
      requires Valid()
      modifies pixels
      ensures n <= turns && (!done ==> n == turns) && (done ==> n > 0 && EndsAt(x0, y0, x1, y1, n - 1))
      ensures NotBefore(x0, y0, x1, y1, if done then n - 1 else n)
      ensures pixels[..] == PlotAll(old(pixels[..]), this.width, this.height, this.pixelsPerScan,
                                    Trail(x0, y0, x1, y1, n), color)
    {
      assert width <= pixelsPerScan && height * pixelsPerScan <= pixels.Length;
      hide *;
      var dx: int32, dy: int32 := AsInt(x1 - x0), AsInt(y0 - y1);
      var c := Cursor(x0, y0, dx + dy);
      ghost var m := pixels[..];
      n := 0;
      TrailStart(m, width, height, pixelsPerScan, x0, y0, x1, y1, color);
      while n < turns
        invariant n <= turns && c == Position(x0, y0, x1, y1, n)
        invariant NotBefore(x0, y0, x1, y1, n)
        invariant pixels[..] == PlotAll(m, width, height, pixelsPerScan, Trail(x0, y0, x1, y1, n), color)
      {
        SetPixel(c.x, c.y, color);
        TrailGrows(m, width, height, pixelsPerScan, x0, y0, x1, y1, n, color);
        if c.x == x1 && c.y == y1 { return true, n + 1; }
        n := n + 1;
        c := Turned(c, dx, dy, x0 < x1, y0 < y1);
      }
      done := false;
    }
  }

  /** None of the first `n` turns ends the line. */
  ghost predicate NotBefore(x0: dword, y0: dword, x1: dword, y1: dword, n: int) {
    forall k: nat :: k < n ==> !EndsAt(x0, y0, x1, y1, k)
  }

  /** The points of the first `n` turns. */
  function Trail(x0: dword, y0: dword, x1: dword, y1: dword, n: nat): (r: seq<(nat, nat)>)
    ensures |r| == n
  {
    if n == 0 then [] else
      var c := Position(x0, y0, x1, y1, n - 1);
      Trail(x0, y0, x1, y1, n - 1) + [(c.x as nat, c.y as nat)]
  }

  lemma TrailStart(m: seq<dword>, width: nat, height: nat, scan: nat, x0: dword, y0: dword, x1: dword, y1: dword,
                   color: dword)
    requires width <= scan && height * scan <= |m|
    ensures PlotAll(m, width, height, scan, Trail(x0, y0, x1, y1, 0), color) == m
    ensures Position(x0, y0, x1, y1, 0) == Cursor(x0, y0, AsInt(x1 - x0) + AsInt(y0 - y1))
    ensures NotBefore(x0, y0, x1, y1, 0)
  {
  }

  lemma TrailGrows(m: seq<dword>, width: nat, height: nat, scan: nat, x0: dword, y0: dword, x1: dword, y1: dword,
                   n: nat, color: dword)
    requires width <= scan && height * scan <= |m|
    ensures var c, ps := Position(x0, y0, x1, y1, n), Trail(x0, y0, x1, y1, n);
      && PlotAll(m, width, height, scan, Trail(x0, y0, x1, y1, n + 1), color) ==
         Plot(PlotAll(m, width, height, scan, ps, color), width, height, scan, (c.x as nat, c.y as nat), color)
      && Position(x0, y0, x1, y1, n + 1) == Turned(c, AsInt(x1 - x0), AsInt(y0 - y1), x0 < x1, y0 < y1)
      && (EndsAt(x0, y0, x1, y1, n) <==> c.x == x1 && c.y == y1)
      && (NotBefore(x0, y0, x1, y1, n) && !EndsAt(x0, y0, x1, y1, n) ==> NotBefore(x0, y0, x1, y1, n + 1))
  {
    hide Plot, Turned;
    var all := Trail(x0, y0, x1, y1, n + 1);
    assert all[..n] == Trail(x0, y0, x1, y1, n);
  }

  /** What is drawn before turn `n`. */
  function Drawn(m: seq<dword>, width: nat, height: nat, scan: nat, x0: nat, y0: nat, dx: nat, dy: nat, n: nat,
                 color: dword): (r: seq<dword>)
    requires width <= scan && height * scan <= |m|
    ensures |r| == |m|
  {
    if n == 0 then m else PlotAll(m, width, height, scan, Points(x0, y0, dx, dy, n - 1), color)
  }

  lemma Begin(m: seq<dword>, width: nat, height: nat, scan: nat, x0: nat, y0: nat, dx: nat, dy: nat, color: dword)
    requires width <= scan && height * scan <= |m|
    ensures Drawn(m, width, height, scan, x0, y0, dx, dy, 0, color) == m
    ensures After(dx, dy, 0) == Start(dx, dy) == Pen(0, 0, dx - dy)
    ensures Max(dx, dy) >= 0
  {
  }

  lemma AllDrawn(m: seq<dword>, width: nat, height: nat, scan: nat, x0: nat, y0: nat, x1: nat, y1: nat, n: nat,
                 color: dword)
    requires width <= scan && height * scan <= |m| && x0 <= x1 && y0 <= y1 && n == Max(x1 - x0, y1 - y0)
    ensures Drawn(m, width, height, scan, x0, y0, x1 - x0, y1 - y0, n + 1, color) ==
            PlotAll(m, width, height, scan, Line(x0, y0, x1, y1), color)
  {
  }

  lemma FirstTurn(dx: nat, dy: nat)
    requires Fits(dx, dy)
    ensures IsInt(dx) && IsInt(0 - dy) && IsInt(dx - dy)
  {
  }

  /** A turn that does not begin at the end stays within the line and within an `int`. */
  lemma Turn(dx: nat, dy: nat, n: nat, p: Pen) returns (q: Pen)
    requires p == After(dx, dy, n) && n < Max(dx, dy) && Fits(dx, dy)
    ensures q == After(dx, dy, n + 1) && q.a <= dx && q.b <= dy
    ensures -0x8000_0000 <= 2 * p.err < 0x8000_0000
    ensures 2 * p.err >= 0 - dy ==> -0x8000_0000 <= p.err - dy
    ensures q.a == (if 2 * p.err >= 0 - dy then p.a + 1 else p.a) && q.b == (if 2 * p.err <= dx then p.b + 1 else p.b)
    ensures q.err == p.err - (if 2 * p.err >= 0 - dy then dy else 0) + if 2 * p.err <= dx then dx else 0
    ensures -0x8000_0000 <= q.err < 0x8000_0000
  {
    q := Next(p, dx, dy);
    EndReachedExactly(dx, dy, n + 1);
    assert TurnFits(p, dx, dy);
  }

  lemma IndexInside(x: nat, y: nat, width: nat, height: nat, scan: nat)
    requires x < width <= scan && y < height
    ensures 0 <= y * scan + x < height * scan
  {
    MulLe(y + 1, height, scan);
    assert (y + 1) * scan == y * scan + scan;
  }

  function Plot(m: seq<dword>, width: nat, height: nat, scan: nat, p: (nat, nat), color: dword): (r: seq<dword>)
    requires width <= scan && height * scan <= |m|
    ensures |r| == |m|
  {
    if p.0 >= width || p.1 >= height then m
    else
      IndexInside(p.0, p.1, width, height, scan);
      m[p.1 * scan + p.0 := color]
  }

  function PlotAll(m: seq<dword>, width: nat, height: nat, scan: nat, ps: seq<(nat, nat)>, color: dword)
    : (r: seq<dword>)
    requires width <= scan && height * scan <= |m|
    ensures |r| == |m|
  {
    if ps == [] then m
    else Plot(PlotAll(m, width, height, scan, ps[..|ps| - 1], color), width, height, scan, ps[|ps| - 1], color)
  }

  lemma PlotLast(m: seq<dword>, width: nat, height: nat, scan: nat, x0: nat, y0: nat, dx: nat, dy: nat, n: nat,
                 color: dword)
    requires width <= scan && height * scan <= |m|
    ensures var p := After(dx, dy, n); var before := Drawn(m, width, height, scan, x0, y0, dx, dy, n, color);
      Drawn(m, width, height, scan, x0, y0, dx, dy, n + 1, color) ==
                         Plot(before, width, height, scan, (x0 + p.a, y0 + p.b), color)
  {
    var all := Points(x0, y0, dx, dy, n);
    hide Plot, After;
    assert all[..n] == if n == 0 then [] else Points(x0, y0, dx, dy, n - 1);
    assert Drawn(m, width, height, scan, x0, y0, dx, dy, n + 1, color) == PlotAll(m, width, height, scan, all, color);
  }

  /** A pixel has the color if one of the points, inside the screen, is drawn there; otherwise it is unchanged. */
  lemma {:induction false} OnlyThePointsAreDrawn(m: seq<dword>, width: nat, height: nat, scan: nat,
      ps: seq<(nat, nat)>, color: dword, k: nat)
    requires width <= scan && height * scan <= |m| && k < |m|
    ensures PlotAll(m, width, height, scan, ps, color)[k] == if DrawnAt(ps, width, height, scan, k) then color else m[k]
    decreases |ps|
  {
    if ps != [] {
      var init, p := ps[..|ps| - 1], ps[|ps| - 1];
      OnlyThePointsAreDrawn(m, width, height, scan, init, color, k);
      assert ps == init + [p];
      DrawnLast(init, p, width, height, scan, k);
      if p.0 < width && p.1 < height { IndexInside(p.0, p.1, width, height, scan); }
    }
  }

  predicate Hits(p: (nat, nat), width: nat, height: nat, scan: nat, k: nat) {
    p.0 < width && p.1 < height && p.1 * scan + p.0 == k
  }

  ghost predicate DrawnAt(ps: seq<(nat, nat)>, width: nat, height: nat, scan: nat, k: nat) {
    exists p :: p in ps && Hits(p, width, height, scan, k)
  }

  lemma DrawnLast(init: seq<(nat, nat)>, p: (nat, nat), width: nat, height: nat, scan: nat, k: nat)
    ensures DrawnAt(init + [p], width, height, scan, k) <==>
        DrawnAt(init, width, height, scan, k) || Hits(p, width, height, scan, k)
  {
    hide Hits;
    if DrawnAt(init, width, height, scan, k) {
      var q :| q in init && Hits(q, width, height, scan, k);
      assert q in init + [p];
    }
    assert p in init + [p];
  }

  // ----- lines in any direction -----

  /** Where the loop stands: its unsigned coordinates and the error term, here unbounded. */
  datatype Cursor = Cursor(x: dword, y: dword, err: int)

  /** One step along an axis, in 32 bits. */
  function Stepped(v: dword, forward: bool): dword {
    (if forward then v + 1 else v + 0xFFFF_FFFF) % 0x1_0000_0000
  }

  /** One turn with the code's own differences: neither is made positive or negative first, because the
      comparisons that should do so are unsigned; each gets its sign when it is converted. */
  function Turned(c: Cursor, dx: int, dy: int, right: bool, down: bool): Cursor {
    var e2 := 2 * c.err;
    Cursor(if e2 >= dy then Stepped(c.x, right) else c.x, if e2 <= dx then Stepped(c.y, down) else c.y,
           c.err + (if e2 >= dy then dy else 0) + if e2 <= dx then dx else 0)
  }

  /** Before turn `n` of a line from `(x0, y0)` to `(x1, y1)`. */
  function Position(x0: dword, y0: dword, x1: dword, y1: dword, n: nat): Cursor {
    if n == 0 then Cursor(x0, y0, AsInt(x1 - x0) + AsInt(y0 - y1))
    else Turned(Position(x0, y0, x1, y1, n - 1), AsInt(x1 - x0), AsInt(y0 - y1), x0 < x1, y0 < y1)
  }

  predicate EndsAt(x0: dword, y0: dword, x1: dword, y1: dword, n: nat) {
    Position(x0, y0, x1, y1, n).x == x1 && Position(x0, y0, x1, y1, n).y == y1
  }
}
