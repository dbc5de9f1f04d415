/** The line drawing of drivers/framebuffer.c. */
module Framebuffer {
  import opened Bits
  import opened Helpers

  datatype Point = Point(x: int, y: int)

  function Abs(n: int): nat { if n < 0 then -n else n }
  function Sign(n: int): int { if n > 0 then 1 else -1 }

  /** Division by 2 as C does it, towards zero. */
  function Half(n: int): int { if n >= 0 then n / 2 else -(-n / 2) }

  function Length(p: Point, q: Point): nat {
    if Abs(q.x - p.x) > Abs(q.y - p.y) then Abs(q.x - p.x) else Abs(q.y - p.y)
  }

  /** How far the ideal line has gone along the minor axis after i of `major` steps, rounded to the
      nearest integer, halves down. */
  function Minor(i: nat, major: nat, minor: nat): nat {
    if major == 0 then 0 else (2 * i * minor + major - 1) / (2 * major)
  }

  /** k steps from a towards b. */
  function Along(a: int, b: int, k: nat): int { if b > a then a + k else a - k }

  /** The i-th point of the line from p to q. */
  function LinePoint(p: Point, q: Point, i: nat): Point {
    var dx, dy := Abs(q.x - p.x), Abs(q.y - p.y);
    if dx > dy then Point(Along(p.x, q.x, i), Along(p.y, q.y, Minor(i, dx, dy)))
    else Point(Along(p.x, q.x, Minor(i, dy, dx)), Along(p.y, q.y, i))
  }

  /** Rounding is exact to half a step, and settles halves. */
  lemma MinorNearest(i: nat, major: nat, minor: nat)
    requires major > 0
    ensures -(major as int) <= 2 * (Minor(i, major, minor) * major - i * minor) < major
  {
    var j, a := Minor(i, major, minor), 2 * i * minor + major - 1;
    assert a == 2 * major * j + a % (2 * major);
    assert 2 * major * j == 2 * (j * major) && 2 * i * minor == 2 * (i * minor);
  }

  /** The error term of the loop keeps j the rounded value. */
  lemma ErrorTerm(i: nat, j: nat, major: nat, minor: nat)
    requires major > 0 && 0 <= major / 2 + j * major - i * minor < major
    ensures j == Minor(i, major, minor)
  {
    var a := 2 * i * minor + major - 1;
    assert 2 * i * minor == 2 * (i * minor) && (2 * major) * j == 2 * (j * major);
    var r := a - (2 * major) * j;
    assert 0 <= r < 2 * major;
    DivUnique(a, 2 * major, j, r);
  }

  /** The line starts at p and ends at q. */
  lemma LineEnds(p: Point, q: Point)
    ensures LinePoint(p, q, 0) == p && LinePoint(p, q, Length(p, q)) == q
  {
    hide Minor;
    var dx, dy := Abs(q.x - p.x), Abs(q.y - p.y);
    if dx > dy { MinorEnds(dx, dy); } else { MinorEnds(dy, dx); }
  }

  lemma MinorEnds(major: nat, minor: nat)
    requires minor <= major
    ensures Minor(0, major, minor) == 0 && Minor(major, major, minor) == minor
  {
    if major > 0 {
      hide Minor;
      assert major / 2 + minor * major - major * minor == major / 2;
      ErrorTerm(0, 0, major, minor);
      ErrorTerm(major, minor, major, minor);
    }
  }

  /** A point of the line is never more than half a pixel from the ideal line, measured along the
      minor axis: with dx > dy, |y - y0 - (x - x0) * (y1 - y0) / (x1 - x0)| <= 1/2. */
  lemma HalfPixel(p: Point, q: Point, i: nat)
    requires p != q
    ensures var r := LinePoint(p, q, i);
      2 * Abs((r.y - p.y) * (q.x - p.x) - (r.x - p.x) * (q.y - p.y)) <= Length(p, q)
  {
    var dx, dy := Abs(q.x - p.x), Abs(q.y - p.y);
    var sx, sy := Sign(q.x - p.x), Sign(q.y - p.y);
    assert q.x - p.x == sx * dx && q.y - p.y == sy * dy;
    if dx > dy {
      MinorNearest(i, dx, dy);
      CrossSigned(sx, sy, i, Minor(i, dx, dy), dx, dy);
    } else {
      MinorNearest(i, dy, dx);
      CrossSigned(sx, sy, Minor(i, dy, dx), i, dx, dy);
    }
  }

  lemma CrossSigned(sx: int, sy: int, a: nat, b: nat, dx: nat, dy: nat)
    requires (sx == 1 || sx == -1) && (sy == 1 || sy == -1)
    ensures Abs((sy * b) * (sx * dx) - (sx * a) * (sy * dy)) == Abs(b * dx - a * dy)
  {
    SignedProduct(sy, b, sx, dx);
    SignedProduct(sx, a, sy, dy);
  }

  lemma SignedProduct(s: int, x: int, t: int, y: int)
    requires (s == 1 || s == -1) && (t == 1 || t == -1)
    ensures (s * x) * (t * y) == if s == t then x * y else -(x * y)
  {
    var u, v := s * x, t * y;
    assert u == x || u == -x;
    assert (-x) * y == -(x * y) && x * (-y) == -(x * y) && (-x) * (-y) == x * y;
  }

  /** After i steps the loop stands at the i-th point, with this error term. */
  predicate OnLine(p: Point, q: Point, i: nat, at: Point, err: int) {
    var dx, dy := Abs(q.x - p.x), Abs(q.y - p.y);
    at == LinePoint(p, q, i) && if dx > dy then Balanced(i, dx, dy, err) else Balanced(i, dy, dx, -err)
  }

  predicate Balanced(i: nat, major: nat, minor: nat, e: int) {
    e == major / 2 + Minor(i, major, minor) * major - i * minor && (0 <= e < major || e == major == 0)
  }

  lemma BalancedStart(major: nat, minor: nat)
    requires minor <= major
    ensures Balanced(0, major, minor, major / 2) && Minor(0, major, minor) == 0
  {
    if major > 0 { ErrorTerm(0, 0, major, minor); }
  }

  /** One step along the major axis; the minor axis follows when the error term has run out. */
  lemma BalancedStep(i: nat, major: nat, minor: nat, e: int)
    requires Balanced(i, major, minor, e) && minor <= major && major > 0
    ensures 0 <= e < major
    ensures var turn := e < minor;
      && Minor(i + 1, major, minor) == Minor(i, major, minor) + (if turn then 1 else 0)
      && Balanced(i + 1, major, minor, e - minor + (if turn then major else 0))
  {
    var j := Minor(i, major, minor);
    var j' := if e < minor then j + 1 else j;
    assert (i + 1) * minor == i * minor + minor && (j + 1) * major == j * major + major;
    ErrorTerm(i + 1, j', major, minor);
  }

  lemma LineStart(p: Point, q: Point)
    ensures var dx: int, dy: int := Abs(q.x - p.x), Abs(q.y - p.y);
      OnLine(p, q, 0, p, Half(if dx > dy then dx else -dy))
  {
    hide Minor, Balanced;
    var dx, dy := Abs(q.x - p.x), Abs(q.y - p.y);
    if dx > dy { BalancedStart(dx, dy); } else { BalancedStart(dy, dx); }
  }

  lemma StandsAt(p: Point, q: Point, i: nat, at: Point, err: int)
    requires OnLine(p, q, i, at, err)
    ensures at == LinePoint(p, q, i) && Abs(err) <= Length(p, q)
  {
  }

  /** What the body of the loop does to the position and the error term. */
  function Next(p: Point, q: Point, at: Point, err: int): (Point, int) {
    var dx: int, dy: int := Abs(q.x - p.x), Abs(q.y - p.y);
    var goX, goY := err > -dx, err < dy;
    (Point(at.x + (if goX then Sign(q.x - p.x) else 0), at.y + (if goY then Sign(q.y - p.y) else 0)),
     err - (if goX then dy else 0) + (if goY then dx else 0))
  }

  lemma NextIs(p: Point, q: Point, at: Point, err: int)
    ensures var dx: int, dy: int, n := Abs(q.x - p.x), Abs(q.y - p.y), Next(p, q, at, err);
      && n.0.x == (if err > -dx then at.x + Sign(q.x - p.x) else at.x)
      && n.0.y == (if err < dy then at.y + Sign(q.y - p.y) else at.y)
      && n.1 == (if err > -dx then if err < dy then err - dy + dx else err - dy
                 else if err < dy then err + dx else err)
  {
  }

  lemma Signs(n: int)
    ensures Abs(n) == (if n < 0 then -n else n) && Sign(n) == if n > 0 then 1 else -1
  {
  }

  /** The error term never leaves the range of an int. */
  lemma ErrorFits(p: Point, q: Point, i: nat, at: Point, err: int)
    requires OnLine(p, q, i, at, err) && i < Length(p, q) && Fits(Abs(q.x - p.x) + Abs(q.y - p.y))
    ensures Fits(err) && (err > -(Abs(q.x - p.x) as int) ==> Fits(err - Abs(q.y - p.y)))
    ensures Fits(Next(p, q, at, err).1)
  {
    hide Minor;
    var dx, dy := Abs(q.x - p.x), Abs(q.y - p.y);
    if dx > dy { BalancedStep(i, dx, dy, err); } else { BalancedStep(i, dy, dx, -err); }
  }

  lemma LineStep(p: Point, q: Point, i: nat, at: Point, err: int)
    requires OnLine(p, q, i, at, err) && i < Length(p, q)
    ensures at != q && OnLine(p, q, i + 1, Next(p, q, at, err).0, Next(p, q, at, err).1)
  {
    hide Minor, Balanced;
    var dx, dy := Abs(q.x - p.x), Abs(q.y - p.y);
    if dx > dy { BalancedStep(i, dx, dy, err); } else { BalancedStep(i, dy, dx, -err); }
  }

  /** An int of 32 bits. */
  predicate Fits(n: int) { -0x8000_0000 < n < 0x8000_0000 }

  lemma RowInside(y: nat, x: nat, pitch: nat, height: nat)
    requires y < height && x < pitch
    ensures 0 <= y * pitch + x < height * pitch
  {
    var rest := height - y - 1;
    assert height * pitch == (y + 1 + rest) * pitch == y * pitch + pitch + rest * pitch;
  }

  class Screen {
    const width: nat
    const height: nat
    const pitch: nat                 // in pixels
    const target: array<u32>

    ghost predicate Valid() { width <= pitch && height * pitch <= target.Length }

    /** The point is on the screen, and word k of the buffer is its pixel. */
    predicate IsPlace(p: Point, k: int) {
      0 <= p.x < width && 0 <= p.y < height && p.y * pitch + p.x == k
    }

    /** Buffer word k is a pixel of one of the points. */
    ghost predicate Hit(points: seq<Point>, k: int) {
      exists p :: p in points && IsPlace(p, k)
    }

    /** The words of the points on the screen have the color, and no other word changed. */
    ghost predicate Painted(px: seq<u32>, px': seq<u32>, points: seq<Point>, color: u32) {
      |px'| == |px| && forall k :: 0 <= k < |px| ==> px'[k] == if Hit(points, k) then color else px[k]
    }

    /** _putpixel: nothing happens off the screen. */
    method PutPixel(p: Point, color: u32)
      requires Valid()
      modifies target
      ensures forall k :: 0 <= k < target.Length ==>
        target[k] == if 0 <= p.x < width && 0 <= p.y < height && p.y * pitch + p.x == k then color else old(target[k])
      ensures forall k :: 0 <= k < target.Length ==> target[k] == if IsPlace(p, k) then color else old(target[k])
    {
      if p.x < 0 || p.y < 0 || p.x >= width || p.y >= height { return; }
      RowInside(p.y, p.x, pitch, height);
      target[p.y * pitch + p.x] := color;
    }

    /** fb_draw_line: paints the points of the line, those that are on the screen, and no others. */
    method DrawLine(p: Point, q: Point, color: u32)
      requires Valid()
      modifies target
      ensures forall k :: 0 <= k < target.Length ==>
        target[k] ==
          if exists i: nat :: i <= Length(p, q) && IsPlace(LinePoint(p, q, i), k) then color else old(target[k])
    {
      hide OnLine, LinePoint, Painted, Screen.IsPlace, Next, Abs, Sign, Length, Half;
      Signs(q.x - p.x);
      Signs(q.y - p.y);
      var x, y, dx, dy := p.x, p.y, q.x - p.x, q.y - p.y;
      var sx, sy := if dx > 0 then 1 else -1, if dy > 0 then 1 else -1;
      if dx < 0 { dx := -dx; }
      if dy < 0 { dy := -dy; }
      var err := Half(if dx > dy then dx else -dy);
      ghost var points := [];
      LineEnds(p, q);
      LineStart(p, q);
      PaintNone(target[..], color);
      while true
        invariant |points| <= Length(p, q)
        invariant OnLine(p, q, |points|, Point(x, y), err)
        invariant forall i :: 0 <= i < |points| ==> points[i] == LinePoint(p, q, i)
        invariant Painted(old(target[..]), target[..], points, color)
        decreases Length(p, q) - |points|
      {
        ghost var before := points;
        StandsAt(p, q, |points|, Point(x, y), err);
        if |points| < Length(p, q) { LineStep(p, q, |points|, Point(x, y), err); }
        ghost var px := target[..];
        PutPixel(Point(x, y), color);
        points := points + [Point(x, y)];
        PaintMore(old(target[..]), px, target[..], before, Point(x, y), color);
        if x == q.x && y == q.y { break; }
        ghost var next := Next(p, q, Point(x, y), err);
        NextIs(p, q, Point(x, y), err);
        var e2 := err;
        if e2 > -dx { err := err - dy; x := x + sx; }
        if e2 < dy { err := err + dx; y := y + sy; }
        assert Point(x, y) == next.0 && err == next.1;
      }
      LinePainted(p, q, old(target[..]), target[..], points, color);
    }

    lemma LinePainted(p: Point, q: Point, px: seq<u32>, px': seq<u32>, points: seq<Point>, color: u32)
      requires |points| == Length(p, q) + 1 && Painted(px, px', points, color)
      requires forall i :: 0 <= i < |points| ==> points[i] == LinePoint(p, q, i)
      ensures |px'| == |px| && forall k :: 0 <= k < |px| ==>
        px'[k] == if exists i: nat :: i <= Length(p, q) && IsPlace(LinePoint(p, q, i), k) then color else px[k]
    {
      hide LinePoint, IsPlace;
      forall k | 0 <= k < |px|
        ensures Hit(points, k) <==> exists i: nat :: i <= Length(p, q) && IsPlace(LinePoint(p, q, i), k)
      {
        if Hit(points, k) {
          var r :| r in points && IsPlace(r, k);
          var i: nat :| i < |points| && points[i] == r;
          assert IsPlace(LinePoint(p, q, i), k);
        }
        if i: nat :| i <= Length(p, q) && IsPlace(LinePoint(p, q, i), k) {
          assert points[i] in points;
        }
      }
    }

    lemma PaintNone(px: seq<u32>, color: u32)
      ensures Painted(px, px, [], color)
    {
    }

    lemma PaintMore(px: seq<u32>, px': seq<u32>, px'': seq<u32>, points: seq<Point>, p: Point, color: u32)
      requires Painted(px, px', points, color) && |px''| == |px|
      requires forall k :: 0 <= k < |px| ==> px''[k] == if IsPlace(p, k) then color else px'[k]
      ensures Painted(px, px'', points + [p], color)
    {
      assert forall r :: r in points + [p] <==> r in points || r == p;
      assert p in points + [p];
      forall k ensures Hit(points + [p], k) <==> Hit(points, k) || IsPlace(p, k) {
      }
    }
  }
}
