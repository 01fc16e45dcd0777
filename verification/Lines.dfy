/** The line rasteriser of the graphics manager. */
module Lines {
  import opened Arithmetic

  type U32 = x: int | 0 <= x < 0x1_0000_0000

  function Abs(x: int): nat {
    if x < 0 then -x else x
  }

  function Max(a: nat, b: nat): nat {
    if a >= b then a else b
  }

  // ----- the ideal line -----

  /** `a / m` rounded to the nearest integer, halves upward. */
  ghost function Round(a: nat, m: nat): nat {
    if m == 0 then 0 else (2 * a + m) / (2 * m)
  }

  /** A straight line between two points, walked in `Length` equal steps along its longer axis. */
  datatype Line = Line(x1: nat, y1: nat, x2: nat, y2: nat) {
    function Dx(): nat { Abs(x2 - x1) }
    function Dy(): nat { Abs(y2 - y1) }
    function Length(): nat { Max(Dx(), Dy()) }
    function StepX(): int { if x1 < x2 then 1 else -1 }
    function StepY(): int { if y1 < y2 then 1 else -1 }

    /** How far pixel `k` is from the start on each axis. */
    ghost function OffX(k: nat): nat { Round(Dx() * k, Length()) }
    ghost function OffY(k: nat): nat { Round(Dy() * k, Length()) }

    ghost function X(k: nat): int { x1 + StepX() * OffX(k) }
    ghost function Y(k: nat): int { y1 + StepY() * OffY(k) }

    /** Some pixel of the line lies at (x, y). */
    ghost predicate Covers(x: int, y: int) {
      exists k :: 0 <= k <= Length() && X(k) == x && Y(k) == y
    }
  }

  // ----- rounding -----

  lemma DivBounds(a: int, d: int, q: int)
    requires d > 0
    ensures q == a / d <==> q * d <= a < q * d + d
  {
    assert a == d * (a / d) + a % d;
    if q * d <= a < q * d + d {
      if q > a / d {
        MulMono(a / d + 1, q, d);
      } else if q < a / d {
        MulMono(q + 1, a / d, d);
      }
    }
  }

  /** Rounding is the only integer within half a unit, counting one of two halves. */
  lemma RoundUnique(a: nat, m: nat, q: nat)
    requires m > 0
    ensures q == Round(a, m) <==> -(m as int) < 2 * (m * q - a) <= m
  {
    DivBounds(2 * a + m, 2 * m, q);
    assert q * (2 * m) == 2 * (m * q);
  }

  lemma RoundExact(k: nat, m: nat)
    requires m > 0
    ensures Round(m * k, m) == k
  {
    RoundUnique(m * k, m, k);
  }

  lemma RoundMonotone(a: nat, b: nat, m: nat)
    requires m > 0 && a <= b
    ensures Round(a, m) <= Round(b, m)
  {
    var p, q := Round(a, m), Round(b, m);
    RoundUnique(a, m, p);
    RoundUnique(b, m, q);
    if p > q {
      MulMono(q + 1, p, m);
    }
  }

  // ----- the error term -----

  /** One round of the loop: with error `dx - dy + dx * j - dy * i`, the two tests decide
      exactly how the rounded offsets advance. */
  lemma Advance(dx: nat, dy: nat, k: nat)
    requires Max(dx, dy) > 0
    ensures var m := Max(dx, dy);
      var i, j := Round(dx * k, m), Round(dy * k, m);
      var error := dx - dy + (dx * j - dy * i);
      Round(dx * (k + 1), m) == i + (if 2 * error + dy >= 0 then 1 else 0) &&
      Round(dy * (k + 1), m) == j + (if 2 * error <= dx then 1 else 0)
  {
    var m := Max(dx, dy);
    assert dx * (k + 1) == dx * k + dx && dy * (k + 1) == dy * k + dy;
    if dx >= dy {
      RoundExact(k, m);
      RoundExact(k + 1, m);
      AdvanceMinor(m, dy, k);
    } else {
      RoundExact(k, m);
      RoundExact(k + 1, m);
      AdvanceMinor(m, dx, k);
    }
  }

  /** Along the minor axis the offset advances when the error would exceed half a unit. */
  lemma AdvanceMinor(m: nat, d: nat, k: nat)
    requires m > 0 && d <= m
    ensures var j := Round(d * k, m); var r := m * j - d * k;
      -(m as int) < 2 * r <= m &&
      Round(d * (k + 1), m) == j + (if 2 * r <= 2 * d - m then 1 else 0)
  {
    hide Round;
    var j := Round(d * k, m);
    RoundUnique(d * k, m, j);
    var step := if 2 * (m * j - d * k) <= 2 * d - m then 1 else 0;
    assert d * (k + 1) == d * k + d;
    assert m * (j + step) == m * j + m * step;
    RoundUnique(d * (k + 1), m, j + step);
  }

  /** The error term before pixel `k + 1` is chosen. */
  ghost function ErrorAt(l: Line, k: nat): int {
    l.Dx() - l.Dy() + (l.Dx() * l.OffY(k) - l.Dy() * l.OffX(k))
  }

  lemma NextPixel(l: Line, k: nat)
    requires k < l.Length()
    ensures var e := ErrorAt(l, k); var alongX, alongY := 2 * e >= -(l.Dy() as int), 2 * e <= l.Dx();
      l.X(k + 1) == l.X(k) + (if alongX then l.StepX() else 0) &&
      l.Y(k + 1) == l.Y(k) + (if alongY then l.StepY() else 0) &&
      ErrorAt(l, k + 1) == e - (if alongX then l.Dy() else 0) + (if alongY then l.Dx() else 0)
  {
    Advance(l.Dx(), l.Dy(), k);
    OneMore(l.Dx(), l.OffY(k), l.OffY(k + 1));
    OneMore(l.Dy(), l.OffX(k), l.OffX(k + 1));
    OneMore(l.StepX(), l.OffX(k), l.OffX(k + 1));
    OneMore(l.StepY(), l.OffY(k), l.OffY(k + 1));
  }

  lemma OneMore(d: int, i: nat, i': nat)
    requires i' == i || i' == i + 1
    ensures d * i' == if i' == i then d * i else d * i + d
  {
  }

  // ----- laws of the line -----

  /** Both ends are hit, and only by the first and the last pixel. */
  lemma Ends(l: Line, k: nat)
    requires k <= l.Length()
    ensures l.X(0) == l.x1 && l.Y(0) == l.y1
    ensures l.X(k) == l.x2 && l.Y(k) == l.y2 <==> k == l.Length()
  {
    var m := l.Length();
    if m > 0 {
      RoundExact(0, m);
      RoundUnique(l.Dx() * 0, m, 0);
      RoundUnique(l.Dy() * 0, m, 0);
      RoundUnique(l.Dx() * m, m, l.Dx());
      RoundUnique(l.Dy() * m, m, l.Dy());
      RoundExact(k, m);
    }
  }

  /** All pixels lie in the bounding box of the endpoints. */
  lemma InBox(l: Line, k: nat)
    requires k <= l.Length()
    ensures (if l.x1 < l.x2 then l.x1 <= l.X(k) <= l.x2 else l.x2 <= l.X(k) <= l.x1)
    ensures (if l.y1 < l.y2 then l.y1 <= l.Y(k) <= l.y2 else l.y2 <= l.Y(k) <= l.y1)
  {
    var m := l.Length();
    if m > 0 {
      OffsetAtMost(l.Dx(), k, m);
      OffsetAtMost(l.Dy(), k, m);
    }
  }

  lemma OffsetAtMost(d: nat, k: nat, m: nat)
    requires m > 0 && k <= m
    ensures Round(d * k, m) <= d
  {
    assert d * k <= d * m by {
      MulMono(k, m, d);
      assert k * d == d * k && m * d == d * m;
    }
    RoundMonotone(d * k, d * m, m);
    RoundUnique(d * m, m, d);
  }

  /** Every pixel is within half a pixel of the ideal line: after `i` steps in x and `j` in
      y, `2 |dx j - dy i| <= max(dx, dy)`. */
  lemma HalfPixel(l: Line, k: nat)
    requires k <= l.Length()
    ensures 2 * Abs(l.Dx() * l.OffY(k) - l.Dy() * l.OffX(k)) <= l.Length()
  {
    var m := l.Length();
    if m > 0 {
      RoundExact(k, m);
      RoundUnique(l.Dx() * k, m, l.OffX(k));
      RoundUnique(l.Dy() * k, m, l.OffY(k));
    }
  }

  /** `v` lies between `a` and `b`. */
  predicate Between(a: int, v: int, b: int) {
    a <= v <= b || b <= v <= a
  }

  /** `j` is the nearest integer to `d * i / m`, the greater of two. */
  predicate Nearest(m: nat, d: nat, i: nat, j: nat) {
    m == 0 || 0 - m < 2 * (m * j - d * i) <= m
  }

  /** Which pixels belong to the line, in numbers: those between the ends that are, for their step
      along the longer axis, nearest to the ideal line. */
  lemma CoversExactly(l: Line, x: int, y: int)
    ensures var dx, dy, i, j := Abs(l.x2 - l.x1), Abs(l.y2 - l.y1), Abs(x - l.x1), Abs(y - l.y1);
      l.Covers(x, y) <==>
        Between(l.x1, x, l.x2) && Between(l.y1, y, l.y2) &&
        if dx >= dy then Nearest(dx, dy, i, j) else Nearest(dy, dx, j, i)
  {
    hide Round, Nearest;
    var dx, dy, i, j := Abs(l.x2 - l.x1), Abs(l.y2 - l.y1), Abs(x - l.x1), Abs(y - l.y1);
    if k :| 0 <= k <= l.Length() && l.X(k) == x && l.Y(k) == y {
      InBox(l, k);
      OnLine(l, k, x, y);
    }
    if Between(l.x1, x, l.x2) && Between(l.y1, y, l.y2) {
      if dx >= dy && Nearest(dx, dy, i, j) {
        NearestIsRound(dx, dy, i, j);
        Along(l, i, x, y);
      } else if dx < dy && Nearest(dy, dx, j, i) {
        NearestIsRound(dy, dx, j, i);
        Along(l, j, x, y);
      }
    }
  }

  lemma NearestIsRound(m: nat, d: nat, i: nat, j: nat)
    requires i <= m && (m == 0 ==> j == 0)
    ensures Round(m * i, m) == i && (Nearest(m, d, i, j) <==> Round(d * i, m) == j)
  {
    if m > 0 {
      RoundExact(i, m);
      RoundUnique(d * i, m, j);
    }
  }

  lemma OnLine(l: Line, k: nat, x: int, y: int)
    requires k <= l.Length() && l.X(k) == x && l.Y(k) == y
    ensures var dx, dy, i, j := l.Dx(), l.Dy(), Abs(x - l.x1), Abs(y - l.y1);
      if dx >= dy then Nearest(dx, dy, i, j) else Nearest(dy, dx, j, i)
  {
    hide Round, Nearest;
    var i, j := Abs(x - l.x1), Abs(y - l.y1);
    assert i == l.OffX(k) && j == l.OffY(k) by {
      Magnitude(l.x1, l.StepX(), l.OffX(k));
      Magnitude(l.y1, l.StepY(), l.OffY(k));
    }
    if l.Dx() >= l.Dy() {
      NearestIsRound(l.Dx(), l.Dy(), k, if l.Dx() == 0 then 0 else j);
      if l.Dx() == 0 {
        LengthZero(l, k);
      }
    } else {
      NearestIsRound(l.Dy(), l.Dx(), k, i);
    }
  }

  lemma Magnitude(a: int, step: int, n: nat)
    requires step == 1 || step == -1
    ensures Abs(a + step * n - a) == n
  {
  }

  lemma LengthZero(l: Line, k: nat)
    requires l.Dx() == 0 && l.Dy() == 0
    ensures l.OffX(k) == 0 && l.OffY(k) == 0
  {
  }

  lemma Along(l: Line, k: nat, x: int, y: int)
    requires Between(l.x1, x, l.x2) && Between(l.y1, y, l.y2) && k <= l.Length()
    requires l.OffX(k) == Abs(x - l.x1) && l.OffY(k) == Abs(y - l.y1)
    ensures l.X(k) == x && l.Y(k) == y && l.Covers(x, y)
  {
  }

  /** The pixels are `Length + 1` different ones, each next to the one before. */
  lemma Connected(l: Line, k: nat)
    requires k < l.Length()
    ensures Abs(l.X(k + 1) - l.X(k)) <= 1 && Abs(l.Y(k + 1) - l.Y(k)) <= 1
    ensures forall k' | 0 <= k' <= k :: (l.X(k'), l.Y(k')) != (l.X(k + 1), l.Y(k + 1))
  {
    Advance(l.Dx(), l.Dy(), k);
    var m := l.Length();
    forall k' | 0 <= k' <= k
      ensures (l.X(k'), l.Y(k')) != (l.X(k + 1), l.Y(k + 1))
    {
      RoundExact(k', m);
      RoundExact(k + 1, m);
    }
  }

  /** Drawing the line from its other end paints the mirror image of pixel `k` exactly where
      the ideal line does not pass half way between two pixels. */
  lemma Reversed(d: nat, k: nat, m: nat)
    requires m > 0 && k <= m && d <= m
    ensures d - Round(d * (m - k), m) == Round(d * k, m) <==> 2 * (m * Round(d * k, m) - d * k) != m
  {
    hide Round;
    var q, p := Round(d * k, m), Round(d * (m - k), m);
    RoundUnique(d * k, m, q);
    OffsetAtMost(d, k, m);
    assert d * (m - k) == d * m - d * k;
    assert m * (d - q) == d * m - m * q;
    RoundUnique(d * (m - k), m, d - q);
  }

  // ----- the display -----

  class Display {
    const width: U32
    const height: U32
    const framebuffer: array<U32>

    ghost predicate Valid() {
      framebuffer.Length == width * height < 0x1_0000_0000
    }

    constructor (width: U32, height: U32)
      requires width * height < 0x1_0000_0000
      ensures Valid() && this.width == width && this.height == height && fresh(framebuffer)
    {
      this.width, this.height := width, height;
      framebuffer := new U32[width * height];
    }

    /** `gm_pixel`: rows lie one after the other. */
    method Pixel(x: U32, y: U32, color: U32)
      requires Valid()
      modifies framebuffer
      ensures forall c | 0 <= c < framebuffer.Length ::
        framebuffer[c] == if x < width && y < height && c == y * width + x then color else old(framebuffer[c])
    {
      if x >= width || y >= height {
        return;
      }
      Inside(x, y, width, height);
      framebuffer[y * width + x] := color;
    }

    /** `gm_line`: paints exactly the pixels of the line, or nothing if an end is outside. The cell
        `c` is column `c % width` of row `c / width`. */
    method DrawLine(x1: U32, y1: U32, x2: U32, y2: U32, color: U32)
      requires Valid()
      modifies framebuffer
      ensures x1 < width && x2 < width && y1 < height && y2 < height ==>
        forall c | 0 <= c < framebuffer.Length :: framebuffer[c] ==
          if Line(x1, y1, x2, y2).Covers(c % width, c / width) then color else old(framebuffer[c])
      ensures !(x1 < width && x2 < width && y1 < height && y2 < height) ==> framebuffer[..] == old(framebuffer[..])
    {
      if x1 >= width || x2 >= width || y1 >= height || y2 >= height {
        return;
      }
      ghost var l := Line(x1, y1, x2, y2);
      var x: int, y: int := x1, y1;
      var endX, endY := x2, y2;
      var dx := if endX >= x then endX - x else x - endX;
      var dy := if endY >= y then y - endY else endY - y;
      var stepX := if x < endX then 1 else -1;
      var stepY := if y < endY then 1 else -1;
      var error := dx + dy;
      ghost var k := 0;
      Ends(l, 0);
      while true
        invariant 0 <= k <= l.Length() && x == l.X(k) && y == l.Y(k)
        invariant error == ErrorAt(l, k)
        invariant forall c | 0 <= c < framebuffer.Length ::
          framebuffer[c] == if CoversBefore(l, k, c % width, c / width) then color else old(framebuffer[c])
        decreases l.Length() - k
      {
        InBox(l, k);
        Ends(l, k);
        CellIs(x, y, width);
        Pixel(x, y, color);
        CoversNext(l, k);
        if x == endX && y == endY {
          break;
        }
        NextPixel(l, k);
        var doubledError := 2 * error;
        if doubledError >= dy {
          error := error + dy;
          x := x + stepX;
        }
        if doubledError <= dx {
          error := error + dx;
          y := y + stepY;
        }
        k := k + 1;
      }
    }
  }

  /** One of the first `k` pixels of the line lies at (x, y). */
  ghost predicate CoversBefore(l: Line, k: nat, x: int, y: int) {
    exists k' :: 0 <= k' < k && l.X(k') == x && l.Y(k') == y
  }

  lemma CoversNext(l: Line, k: nat)
    ensures forall x, y :: CoversBefore(l, k + 1, x, y) <==> CoversBefore(l, k, x, y) || (l.X(k) == x && l.Y(k) == y)
    ensures forall x, y :: CoversBefore(l, l.Length() + 1, x, y) <==> l.Covers(x, y)
  {
    forall x, y
      ensures CoversBefore(l, k + 1, x, y) <==> CoversBefore(l, k, x, y) || (l.X(k) == x && l.Y(k) == y)
    {
      if l.X(k) == x && l.Y(k) == y {
        assert 0 <= k < k + 1;
      }
    }
  }

  lemma Inside(x: nat, y: nat, width: nat, height: nat)
    requires x < width && y < height
    ensures 0 <= y * width + x < width * height
  {
    MulMono(y + 1, height, width);
  }

  /** The cell of (x, y), and no other, has column `x` and row `y`. */
  lemma CellIs(x: nat, y: nat, width: nat)
    requires x < width
    ensures forall c: nat :: c == y * width + x <==> c % width == x && c / width == y
  {
    forall c: nat
      ensures c == y * width + x <==> c % width == x && c / width == y
    {
      assert c == (c / width) * width + c % width;
      if c == y * width + x {
        ModUnique(c, y, x, width);
      }
    }
  }
}
