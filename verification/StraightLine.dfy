/**
 * The line rasteriser of platform/framebuffer/fwk_disp.c: an integer error
 * accumulator steps along the longer axis and now and then along the shorter.
 *
 * The steps are held in plain `char`. The step of -1 for a line that goes left
 * or up is -1 where `char` is signed and 255 where it is unsigned, as it is by
 * default on ARM. `back` is that step; a line from its start to its end to the
 * right and down is drawn alike on both.
 */
module StraightLine {

  datatype Point = Point(x: int, y: int)

  const WORD: nat := 0x1_0000_0000

  /** The step of -1 in a signed and in an unsigned `char`. */
  const SIGNED: int := -1
  const UNSIGNED: int := 255

  /** Distances must survive a shift by one in 32 bits. */
  const SPAN: nat := 0x4000_0000

  function Distance(a: int, b: int): (r: int)
    ensures r >= 0
  {
    if a < b then b - a else a - b
  }

  function Direction(a: int, b: int): int {
    if b >= a then 1 else -1
  }

  /** The step from `a` towards `b`, as `char` holds it. */
  function Stride(a: int, b: int, back: int): int {
    if b >= a then 1 else back
  }

  predicate Flat(p: Point, q: Point) {
    Distance(p.x, q.x) >= Distance(p.y, q.y)
  }

  function Longer(p: Point, q: Point): (r: int)
    ensures r >= 0
  {
    if Flat(p, q) then Distance(p.x, q.x) else Distance(p.y, q.y)
  }

  function Shorter(p: Point, q: Point): (r: int)
    ensures 0 <= r <= Longer(p, q)
  {
    if Flat(p, q) then Distance(p.y, q.y) else Distance(p.x, q.x)
  }

  /** The steps along the shorter axis after `k` along the longer: the ideal
      height k * dmin / dmax rounded to the nearest, halves up. */
  function Minor(dmin: int, dmax: int, k: int): int
    requires dmax >= 0
  {
    if dmax == 0 then 0 else (k * (2 * dmin) + dmax) / (2 * dmax)
  }

  /** The pixel of the line in column (or row) `k`. */
  function PixelAt(p: Point, q: Point, k: int): Point {
    var m := Minor(Shorter(p, q), Longer(p, q), k);
    var (i, j) := if Flat(p, q) then (k, m) else (m, k);
    Point(p.x + Direction(p.x, q.x) * i, p.y + Direction(p.y, q.y) * j)
  }

  // ------------------------------------------------------------ the drawing

  function Offset(p: Point, width: nat): int {
    p.y * width + p.x
  }

  predicate OnScreen(p: Point, width: nat, height: nat) {
    0 <= p.x < width && 0 <= p.y < height
  }

  lemma OffsetInside(p: Point, width: nat, height: nat)
    requires OnScreen(p, width, height)
    ensures 0 <= Offset(p, width) < width * height
  {
    Apart(height, p.y, width);
    Apart(p.y + 1, 0, width);
  }

  /** Multiples of d differ by at least d. */
  lemma Apart(a: int, b: int, d: int)
    requires d >= 0
    ensures a > b ==> a * d >= b * d + d
  {
    assert a * d - b * d == (a - b) * d;
    if a > b {
      AtLeast(a - b, d);
    }
  }

  lemma AtLeast(a: int, d: int)
    requires a >= 1 && d >= 0
    ensures a * d >= d
  {}

  /** Distinct pixels of the screen lie at distinct offsets. */
  lemma OffsetInjective(p: Point, q: Point, width: nat, height: nat)
    requires OnScreen(p, width, height) && OnScreen(q, width, height) && Offset(p, width) == Offset(q, width)
    ensures p == q
  {
    Apart(p.y, q.y, width);
    Apart(q.y, p.y, width);
  }

  /** The pixel of the screen that element `i` of the buffer is: the buffer holds
      the rows one after another, from the left and from the top. */
  function PixelOf(i: nat, width: nat): Point
    requires width > 0
  {
    Point(i % width, i / width)
  }

  /** A pixel's offset is the place of its element. */
  lemma OffsetIs(i: nat, u: Point, width: nat, height: nat)
    requires i < width * height && OnScreen(u, width, height)
    ensures PixelOf(i, width) == u <==> i == Offset(u, width)
  {
    Rounded(i, width, u.y);
    assert i == i / width * width + i % width;
  }

  /** The buffer once the first `n` pixels of the line are written: the elements of
      its pixels have the colour, and every other is as it was. */
  ghost predicate Painted(was: seq<nat>, now: seq<nat>, p: Point, q: Point,
                          width: nat, height: nat, n: int, data: nat) {
    && width > 0 && |now| == |was| == width * height
    && forall i :: 0 <= i < |was| ==> now[i] == if On(p, q, n, PixelOf(i, width)) then data else was[i]
  }

  ghost predicate On(p: Point, q: Point, n: int, u: Point) {
    exists k :: 0 <= k < n && PixelAt(p, q, k) == u
  }

  /** Writes a pixel at its offset, in 32 bits. Beyond the buffer that hits other
      memory, which is not part of this model. */
  method WritePoint(buffer: array<nat>, width: nat, x: nat, y: nat, data: nat)
    modifies buffer
    ensures var offset := Offset(Point(x, y), width) % WORD;
      buffer[..] == if offset < buffer.Length then old(buffer[..])[offset := data] else old(buffer[..])
  {
    hide Offset;
    var offset := Offset(Point(x, y), width) % WORD;
    if offset < buffer.Length {
      buffer[offset] := data;
    }
  }

  lemma PaintedNext(was: seq<nat>, now: seq<nat>, p: Point, q: Point, width: nat, height: nat, n: int, data: nat)
    requires n >= 0 && Painted(was, now, p, q, width, height, n, data) && OnScreen(PixelAt(p, q, n), width, height)
    requires 0 <= Offset(PixelAt(p, q, n), width) < |now|
    ensures Painted(was, now[Offset(PixelAt(p, q, n), width) := data], p, q, width, height, n + 1, data)
  {
    hide PixelAt, Offset, PixelOf;
    var v := PixelAt(p, q, n);
    var next := now[Offset(v, width) := data];
    forall i | 0 <= i < |was|
      ensures next[i] == if On(p, q, n + 1, PixelOf(i, width)) then data else was[i]
    {
      var u := PixelOf(i, width);
      assert On(p, q, n + 1, u) <==> On(p, q, n, u) || u == v;
      OffsetIs(i, v, width, height);
    }
  }

  lemma PaintedNone(was: seq<nat>, p: Point, q: Point, width: nat, height: nat, data: nat)
    requires |was| == width * height && width > 0
    ensures Painted(was, was, p, q, width, height, 0, data)
  {}

  /** Both coordinates grow towards the end, or the backward step is right. */
  predicate StepsRight(p: Point, q: Point, back: int) {
    back == SIGNED || (p.x <= q.x && p.y <= q.y)
  }

  /** Plots `Drawn`, pixel by pixel. When both ends are on the screen and the
      steps are right, that colours exactly the pixels of the line and leaves every
      other as it was. */
  method WriteLine(buffer: array<nat>, width: nat, height: nat, p: Point, q: Point, back: int, data: nat)
    returns (plotted: seq<Point>)
    requires buffer.Length == width * height < WORD && width < WORD && height < WORD
    requires Small(p) && Small(q) && Longer(p, q) < SPAN
    modifies buffer
    ensures plotted == Plots(p, q, back, Longer(p, q) + 1)
    ensures OnScreen(p, width, height) && OnScreen(q, width, height) && StepsRight(p, q, back) ==>
      Painted(old(buffer[..]), buffer[..], p, q, width, height, Longer(p, q) + 1, data)
  {
    hide Painted, Offset, PixelAt, Minor, Drawn, Stride, StepsRight, OnScreen, Plots;
    ghost var sound := OnScreen(p, width, height) && OnScreen(q, width, height) && StepsRight(p, q, back);
    DrawnStart(p, q, back);
    plotted := [];
    var x, y := p.x, p.y;
    var xDistance, yDistance := Distance(p.x, q.x), Distance(p.y, q.y);
    var flat := xDistance >= yDistance;
    var xInc, yInc := Stride(p.x, q.x, back), Stride(p.y, q.y, back);
    var dmax := if flat then xDistance else yDistance;
    var dmin := if flat then yDistance else xDistance;
    var err := -dmax;
    if sound {
      PaintedNone(buffer[..], p, q, width, height, data) by { HasColumns(p, width, height); }
    }
    var count: nat := 0;
    while count <= dmax
      invariant 0 <= count <= dmax + 1
      invariant 0 <= x && 0 <= y && Drawn(p, q, back, count) == Pen(Point(x, y), err)
      invariant plotted == Plots(p, q, back, count)
      invariant sound ==> Painted(old(buffer[..]), buffer[..], p, q, width, height, count, data)
      decreases dmax - count
    {
      DrawnNext(p, q, back, count);
      PlotsNext(p, q, back, count);
      if sound {
        DrawnRight(p, q, back, count);
        PixelOnScreen(p, q, width, height, count);
        PaintedNext(old(buffer[..]), buffer[..], p, q, width, height, count, data);
      }
      WritePoint(buffer, width, x, y, data);
      plotted := plotted + [Point(x, y)];
      if flat {
        x := (x + xInc) % WORD;
      } else {
        y := (y + yInc) % WORD;
      }
      err := err + 2 * dmin;
      if err >= 0 {
        err := err - 2 * dmax;
        if flat {
          y := (y + yInc) % WORD;
        } else {
          x := (x + xInc) % WORD;
        }
      }
      count := count + 1;
    }
  }

  /** The first `n` points plotted. */
  function Plots(p: Point, q: Point, back: int, n: nat): seq<Point> {
    seq(n, k requires 0 <= k => Drawn(p, q, back, k).at)
  }

  lemma PlotsNext(p: Point, q: Point, back: int, n: nat)
    ensures Plots(p, q, back, n + 1) == Plots(p, q, back, n) + [Drawn(p, q, back, n).at]
  {}

  lemma DrawnStart(p: Point, q: Point, back: int)
    requires Small(p) && Small(q)
    ensures Drawn(p, q, back, 0) == Pen(p, -Longer(p, q)) && Plots(p, q, back, 0) == []
    ensures 0 <= p.x && 0 <= p.y
  {}

  /** One round of the loop. */
  lemma DrawnNext(p: Point, q: Point, back: int, k: nat)
    ensures var (pen, next) := (Drawn(p, q, back, k), Drawn(p, q, back, k + 1));
      var err := pen.err + 2 * Shorter(p, q);
      && next.err == (if err >= 0 then err - 2 * Longer(p, q) else err)
      && next.at.x == (if Flat(p, q) || err >= 0 then (pen.at.x + Stride(p.x, q.x, back)) % WORD else pen.at.x)
      && next.at.y == (if !Flat(p, q) || err >= 0 then (pen.at.y + Stride(p.y, q.y, back)) % WORD else pen.at.y)
  {}

  lemma HasColumns(p: Point, width: nat, height: nat)
    requires OnScreen(p, width, height)
    ensures width > 0
  {}

  lemma PixelOnScreen(p: Point, q: Point, width: nat, height: nat, k: int)
    requires OnScreen(p, width, height) && OnScreen(q, width, height) && 0 <= k <= Longer(p, q)
    ensures OnScreen(PixelAt(p, q, k), width, height)
    ensures 0 <= Offset(PixelAt(p, q, k), width) < width * height
  {
    hide PixelAt, Offset;
    PixelInBox(p, q, k);
    OffsetInside(PixelAt(p, q, k), width, height);
  }

  // ------------------------------------------- the accumulator and rounding

  /** The accumulator after `k` steps. */
  function Error(dmin: int, dmax: int, k: int): int
    requires dmax >= 0
  {
    k * (2 * dmin) - Minor(dmin, dmax, k) * (2 * dmax) - dmax
  }

  /** After k steps along the longer axis and m along the shorter,
      -dmax <= k * (2 * dmin) - m * (2 * dmax) < dmax; no other m does that. */
  lemma MinorBound(dmin: int, dmax: int, k: int, m: int)
    requires dmax > 0
    ensures m == Minor(dmin, dmax, k) <==> -dmax <= k * (2 * dmin) - m * (2 * dmax) < dmax
  {
    Rounded(k * (2 * dmin) + dmax, 2 * dmax, m);
  }

  lemma Rounded(a: int, d: int, m: int)
    requires d > 0
    ensures m == a / d <==> 0 <= a - m * d < d
  {
    var f := a / d;
    assert a == f * d + a % d;
    Apart(f, m, d);
    Apart(m, f, d);
  }

  /** The pixel is nearest to the ideal line among all of its column, and the
      farther one along on a tie. */
  lemma Nearest(dmin: int, dmax: int, k: int, m: int)
    requires dmax > 0
    ensures var best := Minor(dmin, dmax, k);
      var (e, f) := (k * (2 * dmin) - best * (2 * dmax), k * (2 * dmin) - m * (2 * dmax));
      Distance(e, 0) <= Distance(f, 0) && (Distance(e, 0) == Distance(f, 0) ==> m <= best)
  {
    hide Minor;
    var best := Minor(dmin, dmax, k);
    MinorBound(dmin, dmax, k, best);
    Apart(best, m, 2 * dmax);
    Apart(m, best, 2 * dmax);
  }

  /** One step of the accumulator. */
  lemma MinorStep(dmin: int, dmax: int, k: int)
    requires 0 <= dmin <= dmax
    ensures var e := Error(dmin, dmax, k) + 2 * dmin;
      && (dmax > 0 ==> Minor(dmin, dmax, k + 1) == Minor(dmin, dmax, k) + if e >= 0 then 1 else 0)
      && Error(dmin, dmax, k + 1) == if e >= 0 then e - 2 * dmax else e
  {
    if dmax > 0 {
      var m := Minor(dmin, dmax, k);
      MinorBound(dmin, dmax, k, m);
      assert 2 * dmin * (k + 1) == k * (2 * dmin) + 2 * dmin;
      assert 2 * dmax * (m + 1) == m * (2 * dmax) + 2 * dmax;
      MinorBound(dmin, dmax, k + 1, m);
      MinorBound(dmin, dmax, k + 1, m + 1);
    }
  }

  lemma MinorEnds(dmin: int, dmax: int)
    requires 0 <= dmin <= dmax
    ensures Minor(dmin, dmax, 0) == 0 && Minor(dmin, dmax, dmax) == dmin
  {
    if dmax > 0 {
      MinorBound(dmin, dmax, 0, 0);
      MinorBound(dmin, dmax, dmax, dmin);
      assert 2 * dmin * dmax == 2 * dmax * dmin;
    }
  }

  lemma MinorInside(dmin: int, dmax: int, k: int)
    requires 0 <= dmin <= dmax && 0 <= k <= dmax
    ensures 0 <= Minor(dmin, dmax, k) <= dmin
  {
    if dmax > 0 {
      hide Minor;
      var m := Minor(dmin, dmax, k);
      MinorBound(dmin, dmax, k, m);
      Apart(dmax, k, 2 * dmin);
      Swap(dmax, dmin);
      Apart(0, m, 2 * dmax);
      Apart(m, dmin, 2 * dmax);
    }
  }

  lemma Swap(a: int, b: int)
    ensures a * (2 * b) == b * (2 * a)
  {}

  lemma Minus(a: int, b: int, d: int)
    ensures (a - b) * d == a * d - b * d
  {}

  // ------------------------------------------------------------- the pixels

  lemma PixelStart(p: Point, q: Point)
    ensures PixelAt(p, q, 0) == p && Error(Shorter(p, q), Longer(p, q), 0) == -Longer(p, q)
  {
    MinorEnds(Shorter(p, q), Longer(p, q));
  }

  /** The first pixel is the start and the last is the end. */
  lemma PixelEnds(p: Point, q: Point)
    ensures PixelAt(p, q, 0) == p && PixelAt(p, q, Longer(p, q)) == q
  {
    MinorEnds(Shorter(p, q), Longer(p, q));
  }

  predicate Between(v: int, a: int, b: int) {
    (a <= v <= b) || (b <= v <= a)
  }

  /** Every pixel lies in the rectangle that the end points span. */
  lemma PixelInBox(p: Point, q: Point, k: int)
    requires 0 <= k <= Longer(p, q)
    ensures Between(PixelAt(p, q, k).x, p.x, q.x) && Between(PixelAt(p, q, k).y, p.y, q.y)
  {
    MinorInside(Shorter(p, q), Longer(p, q), k);
  }

  /** How the loop gets from one pixel to the next. */
  lemma PixelStep(p: Point, q: Point, k: int)
    requires 0 <= k <= Longer(p, q)
    ensures var (u, v) := (PixelAt(p, q, k), PixelAt(p, q, k + 1));
      var e := Error(Shorter(p, q), Longer(p, q), k) + 2 * Shorter(p, q);
      var (dx, dy) := (Direction(p.x, q.x), Direction(p.y, q.y));
      && Error(Shorter(p, q), Longer(p, q), k + 1) == (if e >= 0 then e - 2 * Longer(p, q) else e)
      && (Longer(p, q) > 0 ==>
            v == Point(u.x + (if Flat(p, q) || e >= 0 then dx else 0), u.y + (if !Flat(p, q) || e >= 0 then dy else 0)))
  {
    MinorStep(Shorter(p, q), Longer(p, q), k);
  }

  /** Consecutive pixels touch, at a side or a corner, and never repeat. */
  lemma PixelsTouch(p: Point, q: Point, k: int)
    requires 0 <= k < Longer(p, q)
    ensures var (u, v) := (PixelAt(p, q, k), PixelAt(p, q, k + 1));
      u != v && Distance(u.x, v.x) <= 1 && Distance(u.y, v.y) <= 1
  {
    PixelStep(p, q, k);
  }

  /** Drawn from the other end, the line has the same pixel in a column exactly
      when the ideal line does not pass half-way between two. */
  lemma ReversedIff(p: Point, q: Point, k: int)
    requires 0 <= k <= Longer(p, q) && Longer(p, q) > 0
    ensures PixelAt(q, p, Longer(p, q) - k) == PixelAt(p, q, k)
      <==> (2 * Shorter(p, q) * k) % (2 * Longer(p, q)) != Longer(p, q)
  {
    var (dmin, dmax) := (Shorter(p, q), Longer(p, q));
    MirrorMinor(dmin, dmax, k);
  }

  lemma TieIff(a: int, d: int, m: int)
    requires d > 0 && -d <= a - m * (2 * d) < d
    ensures a % (2 * d) == d <==> a - m * (2 * d) == -d
  {
    Rounded(a, 2 * d, m - 1);
    Rounded(a, 2 * d, m);
    Minus(m, 1, 2 * d);
    assert a == a / (2 * d) * (2 * d) + a % (2 * d);
  }

  lemma MirrorMinor(dmin: int, dmax: int, k: int)
    requires 0 <= dmin <= dmax && dmax > 0 && 0 <= k <= dmax
    ensures var tie := (k * (2 * dmin)) % (2 * dmax) == dmax;
      Minor(dmin, dmax, dmax - k) == dmin - Minor(dmin, dmax, k) + if tie then 1 else 0
    ensures dmin == 0 ==> (k * (2 * dmin)) % (2 * dmax) != dmax
  {
    hide Minor;
    var m := Minor(dmin, dmax, k);
    MinorBound(dmin, dmax, k, m);
    TieIff(k * (2 * dmin), dmax, m);
    var m' := dmin - m + if (k * (2 * dmin)) % (2 * dmax) == dmax then 1 else 0;
    MinorBound(dmin, dmax, dmax - k, m');
    Minus(dmax, k, 2 * dmin);
    Swap(dmax, dmin);
    Minus(dmin, m, 2 * dmax);
    Minus(dmin - m, -1, 2 * dmax);
    if dmin == 0 {
      MinorInside(dmin, dmax, k);
    }
  }

  // ---------------------------------------------- the steps held in `char`

  /** Where the pen stands, and the accumulator. */
  datatype Pen = Pen(at: Point, err: int)

  /** The pen after `k` rounds of the loop, in 32-bit coordinates. */
  function Drawn(p: Point, q: Point, back: int, k: nat): Pen {
    if k == 0 then Pen(p, -Longer(p, q))
    else
      var pen := Drawn(p, q, back, k - 1);
      var err := pen.err + 2 * Shorter(p, q);
      var (xInc, yInc) := (Stride(p.x, q.x, back), Stride(p.y, q.y, back));
      Pen(Point(if Flat(p, q) || err >= 0 then (pen.at.x + xInc) % WORD else pen.at.x,
                if !Flat(p, q) || err >= 0 then (pen.at.y + yInc) % WORD else pen.at.y),
          if err >= 0 then err - 2 * Longer(p, q) else err)
  }

  /** Coordinates are 32-bit numbers. */
  predicate Small(p: Point) {
    0 <= p.x < WORD && 0 <= p.y < WORD
  }

  /** `n` steps from `a` towards `b`. */
  function Along(a: int, b: int, back: int, n: int): int {
    (a + n * Stride(a, b, back)) % WORD
  }

  lemma AlongNext(a: int, b: int, back: int, n: int)
    ensures Along(a, b, back, n + 1) == (Along(a, b, back, n) + Stride(a, b, back)) % WORD
  {
    var s := Stride(a, b, back);
    assert (n + 1) * s == n * s + s;
    ModAdd(a + n * s, s);
  }

  lemma ModAdd(a: int, s: int)
    ensures (a + s) % WORD == (a % WORD + s) % WORD
  {}

  /** The pen after `k` rounds has made `k` steps along the longer axis and those
      of `Minor` along the shorter. */
  lemma {:induction false} DrawnIs(p: Point, q: Point, back: int, k: nat)
    requires Small(p) && Small(q) && k <= Longer(p, q)
    ensures var m := Minor(Shorter(p, q), Longer(p, q), k);
      var (i, j) := if Flat(p, q) then (k, m) else (m, k);
      Drawn(p, q, back, k) == Pen(Point(Along(p.x, q.x, back, i), Along(p.y, q.y, back, j)),
                                  Error(Shorter(p, q), Longer(p, q), k))
  {
    hide Minor, Along;
    if k == 0 {
      PixelStart(p, q);
      MinorEnds(Shorter(p, q), Longer(p, q));
      AlongNone(p.x, q.x, back);
      AlongNone(p.y, q.y, back);
    } else {
      var m := Minor(Shorter(p, q), Longer(p, q), k - 1);
      DrawnIs(p, q, back, k - 1);
      MinorStep(Shorter(p, q), Longer(p, q), k - 1);
      AlongNext(p.x, q.x, back, if Flat(p, q) then k - 1 else m);
      AlongNext(p.y, q.y, back, if Flat(p, q) then m else k - 1);
    }
  }

  lemma AlongNone(a: int, b: int, back: int)
    requires 0 <= a < WORD
    ensures Along(a, b, back, 0) == a
  {}

  /** Steps of +1 or -1 that stay between the ends do not wrap. */
  lemma AlongRight(a: int, b: int, back: int, n: int)
    requires 0 <= a < WORD && 0 <= b < WORD && 0 <= n <= Distance(a, b) && (back == SIGNED || a <= b)
    ensures Along(a, b, back, n) == a + Direction(a, b) * n
  {
    assert n * Stride(a, b, back) == Direction(a, b) * n;
  }

  /** The first step of 255 goes astray. */
  lemma AlongWrong(a: int, b: int)
    requires 0 <= b < a < WORD
    ensures Along(a, b, UNSIGNED, 1) != a + Direction(a, b) * 1
  {}

  /** Some pixel is the first with one step along the shorter axis. */
  lemma {:induction false} FirstMinor(dmin: int, dmax: int, k: nat) returns (j: nat)
    requires 0 <= dmin <= dmax && dmax > 0 && Minor(dmin, dmax, k) >= 1
    ensures j <= k && Minor(dmin, dmax, j) == 1
  {
    hide Minor;
    if Minor(dmin, dmax, k) == 1 {
      return k;
    }
    MinorEnds(dmin, dmax);
    MinorStep(dmin, dmax, k - 1);
    j := FirstMinor(dmin, dmax, k - 1);
  }

  lemma DrawnRight(p: Point, q: Point, back: int, k: nat)
    requires Small(p) && Small(q) && k <= Longer(p, q) && StepsRight(p, q, back)
    ensures Drawn(p, q, back, k).at == PixelAt(p, q, k)
  {
    hide Minor, Along;
    DrawnIs(p, q, back, k);
    MinorInside(Shorter(p, q), Longer(p, q), k);
    var m := Minor(Shorter(p, q), Longer(p, q), k);
    AlongRight(p.x, q.x, back, if Flat(p, q) then k else m);
    AlongRight(p.y, q.y, back, if Flat(p, q) then m else k);
  }

  lemma DrawnWrong(p: Point, q: Point) returns (k: nat)
    requires Small(p) && Small(q) && !(p.x <= q.x && p.y <= q.y)
    ensures k <= Longer(p, q) && Drawn(p, q, UNSIGNED, k).at != PixelAt(p, q, k)
  {
    hide Minor, Along, Drawn;
    var (dmin, dmax) := (Shorter(p, q), Longer(p, q));
    if (if Flat(p, q) then p.x > q.x else p.y > q.y) {
      k := 1;
    } else {
      MinorEnds(dmin, dmax);
      k := FirstMinor(dmin, dmax, dmax);
    }
    DrawnIs(p, q, UNSIGNED, k);
    if p.x > q.x {
      AlongWrong(p.x, q.x);
    }
    if p.y > q.y {
      AlongWrong(p.y, q.y);
    }
  }

  /** Where `char` is unsigned, the loop plots the pixels of the line if and only
      if the line goes neither left nor up. */
  lemma UnsignedIff(p: Point, q: Point)
    requires Small(p) && Small(q) && Longer(p, q) < SPAN
    ensures (forall k: nat :: k <= Longer(p, q) ==> Drawn(p, q, UNSIGNED, k).at == PixelAt(p, q, k))
      <==> p.x <= q.x && p.y <= q.y
  {
    hide Drawn, PixelAt, Longer;
    if p.x <= q.x && p.y <= q.y {
      forall k: nat | k <= Longer(p, q) ensures Drawn(p, q, UNSIGNED, k).at == PixelAt(p, q, k) {
        DrawnRight(p, q, UNSIGNED, k);
      }
    } else {
      var k := DrawnWrong(p, q);
    }
  }

  /** Where `char` is signed, it always does. */
  lemma SignedAlways(p: Point, q: Point, k: nat)
    requires Small(p) && Small(q) && Longer(p, q) < SPAN && k <= Longer(p, q)
    ensures Drawn(p, q, SIGNED, k).at == PixelAt(p, q, k)
  {
    DrawnRight(p, q, SIGNED, k);
  }

  /** From column 10 to column 0 the second pixel is in column 265. */
  lemma LeftwardGoesAstray()
    ensures Drawn(Point(10, 0), Point(0, 0), UNSIGNED, 1).at == Point(265, 0)
    ensures PixelAt(Point(10, 0), Point(0, 0), 1) == Point(9, 0)
  {
    assert Minor(0, 10, 1) == 0;
    assert Drawn(Point(10, 0), Point(0, 0), UNSIGNED, 0) == Pen(Point(10, 0), -10);
  }
}
