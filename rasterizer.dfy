/** The line and fill routines of src/rasterizer/rasterizer.cpp, drawing on
    a Bmp through set_pixel, which throws out_of_range outside the image.
    An exception leaves the pixels written so far in place and ends the
    routine, so a line that leaves the image is painted up to its first
    outside point. */
module Rasterizer {
  import opened Wrappers
  import opened Seqs
  import opened BmpFormat
  import Image
  import Palette

  function Abs(v: int): (a: nat)
    ensures a == v || a == -v
  {
    if v < 0 then -v else v
  }

  /** x0 moved k unit steps towards x1; the step sx is 1 when x0 < x1
      and −1 otherwise. */
  function Along(x0: int, x1: int, k: int): int {
    if x0 < x1 then x0 + k else x0 - k
  }

  /** k copies of d added up, the way the loop accumulates dx and dy into
      err one step at a time. */
  function Times(k: nat, d: int): int {
    if k == 0 then 0 else Times(k - 1, d) + d
  }

  /** The accumulated sum is the product k·d. */
  lemma {:induction false} TimesIsProduct(k: nat, d: int)
    ensures Times(k, d) == k * d
  {
    if k > 0 {
      TimesIsProduct(k - 1, d);
    }
  }

  /** The error term of draw_line_bresenham once the loop has taken a
      steps in x and b steps in y: it starts at dx − dy, loses dy with
      every x step and gains dx with every y step. */
  function ErrorTerm(dx: int, dy: int, a: nat, b: nat): int {
    Times(1 + b, dx) - Times(1 + a, dy)
  }

  /** Before the endpoint, the loop's two tests never step past dx or dy,
      and at least one of them fires. */
  lemma StepInRange(dx: nat, dy: nat, a: nat, b: nat)
    requires a <= dx && b <= dy && !(a == dx && b == dy)
    ensures 2 * ErrorTerm(dx, dy, a, b) > -(dy as int) ==> a < dx
    ensures 2 * ErrorTerm(dx, dy, a, b) < dx ==> b < dy
    ensures 2 * ErrorTerm(dx, dy, a, b) > -(dy as int) || 2 * ErrorTerm(dx, dy, a, b) < dx
  {
    TimesIsProduct(1 + b, dx);
    TimesIsProduct(1 + a, dy);
    if a == dx {
      MulMono(1 + b, dy, dx);
      assert (1 + a) * dy == dy + dx * dy;
      assert ErrorTerm(dx, dy, a, b) <= -(dy as int);
    }
    if b == dy {
      MulMono(1 + a, dx, dy);
      assert (1 + b) * dx == dx + dy * dx;
      assert ErrorTerm(dx, dy, a, b) >= dx;
    }
  }

  /** One pass of the loop after a pixel other than the endpoint:
      e2 = 2·err, an x step when e2 > −dy and a y step when e2 < dx. It
      adds 0 or 1 to each count, never nothing, and stays within dx, dy. */
  function Next(dx: nat, dy: nat, a: nat, b: nat): (n: (nat, nat))
    requires a <= dx && b <= dy && !(a == dx && b == dy)
    ensures n.0 <= dx && n.1 <= dy
    ensures 0 <= n.0 - a <= 1 && 0 <= n.1 - b <= 1 && n.0 + n.1 > a + b
  {
    var e2 := 2 * ErrorTerm(dx, dy, a, b);
    StepInRange(dx, dy, a, b);
    (if e2 > -(dy as int) then a + 1 else a, if e2 < dx then b + 1 else b)
  }

  /** The step counts (a, b) of every pixel the loop sets from (a, b)
      on: the pixel, then, unless it is the endpoint (dx, dy), the walk
      from Next. It starts at (a, b) and ends at (dx, dy). */
  ghost function Offsets(dx: nat, dy: nat, a: nat, b: nat): (s: seq<(int, int)>)
    requires a <= dx && b <= dy
    ensures |s| >= 1 && s[0] == (a, b) && s[|s| - 1] == (dx, dy)
    decreases dx - a + dy - b
  {
    if a == dx && b == dy then [(a, b)]
    else
      var n := Next(dx, dy, a, b);
      [(a, b)] + Offsets(dx, dy, n.0, n.1)
  }

  /** The walk stays within the box [a, dx] × [b, dy] and meets (dx, dy)
      only at its end. */
  lemma {:induction false} OffsetsInBox(dx: nat, dy: nat, a: nat, b: nat)
    requires a <= dx && b <= dy
    ensures forall i :: 0 <= i < |Offsets(dx, dy, a, b)| ==>
              && a <= Offsets(dx, dy, a, b)[i].0 <= dx && b <= Offsets(dx, dy, a, b)[i].1 <= dy
              && (Offsets(dx, dy, a, b)[i] == (dx, dy) ==> i == |Offsets(dx, dy, a, b)| - 1)
    decreases dx - a + dy - b
  {
    var s := Offsets(dx, dy, a, b);
    if !(a == dx && b == dy) {
      var n := Next(dx, dy, a, b);
      var rest := Offsets(dx, dy, n.0, n.1);
      OffsetsInBox(dx, dy, n.0, n.1);
      forall i | 0 <= i < |s|
        ensures a <= s[i].0 <= dx && b <= s[i].1 <= dy && (s[i] == (dx, dy) ==> i == |s| - 1)
      {
        if i > 0 {
          assert s[i] == rest[i - 1];
        }
      }
    }
  }

  /** Every move of the walk adds 0 or 1 to each count and is not the
      null move. */
  lemma {:induction false} OffsetsMoves(dx: nat, dy: nat, a: nat, b: nat)
    requires a <= dx && b <= dy
    ensures forall i, j :: 0 <= i < j < |Offsets(dx, dy, a, b)| && j == i + 1 ==>
              && 0 <= Offsets(dx, dy, a, b)[j].0 - Offsets(dx, dy, a, b)[i].0 <= 1
              && 0 <= Offsets(dx, dy, a, b)[j].1 - Offsets(dx, dy, a, b)[i].1 <= 1
              && Offsets(dx, dy, a, b)[j] != Offsets(dx, dy, a, b)[i]
    decreases dx - a + dy - b
  {
    var s := Offsets(dx, dy, a, b);
    if !(a == dx && b == dy) {
      var n := Next(dx, dy, a, b);
      var rest := Offsets(dx, dy, n.0, n.1);
      OffsetsMoves(dx, dy, n.0, n.1);
      forall i, j | 0 <= i < j < |s| && j == i + 1
        ensures 0 <= s[j].0 - s[i].0 <= 1 && 0 <= s[j].1 - s[i].1 <= 1 && s[j] != s[i]
      {
        assert s[j] == rest[i];
        if i > 0 {
          assert s[i] == rest[i - 1];
        }
      }
    }
  }

  /** The pixel reached after the step counts p = (a, b). */
  function Place(x0: int, y0: int, x1: int, y1: int, p: (int, int)): (int, int) {
    (Along(x0, x1, p.0), Along(y0, y1, p.1))
  }

  /** The pixels of a walk of step counts. */
  function Placed(x0: int, y0: int, x1: int, y1: int, o: seq<(int, int)>): (pts: seq<(int, int)>)
    ensures |pts| == |o|
    ensures forall i :: 0 <= i < |o| ==> pts[i] == Place(x0, y0, x1, y1, o[i])
  {
    if |o| == 0 then []
    else [Place(x0, y0, x1, y1, o[0])] + Placed(x0, y0, x1, y1, o[1..])
  }

  /** The pixels draw_line_bresenham sets, in order. */
  ghost function Points(x0: int, y0: int, x1: int, y1: int): (pts: seq<(int, int)>)
    ensures |pts| >= 1
  {
    Placed(x0, y0, x1, y1, Offsets(Abs(x1 - x0), Abs(y1 - y0), 0, 0))
  }

  /** Moving from x0 towards x1, the k-th step lands on x1 exactly when k
      is the distance |x1 − x0|. */
  lemma AlongReaches(x0: int, x1: int, k: int)
    requires k >= 0
    ensures Along(x0, x1, k) == x1 <==> k == Abs(x1 - x0)
  {
  }

  /** The line starts at (x0, y0) and ends at (x1, y1), which it reaches
      only at its last pixel. */
  lemma {:induction false} LineEndpoints(x0: int, y0: int, x1: int, y1: int)
    ensures Points(x0, y0, x1, y1)[0] == (x0, y0)
    ensures Points(x0, y0, x1, y1)[|Points(x0, y0, x1, y1)| - 1] == (x1, y1)
    ensures forall i :: 0 <= i < |Points(x0, y0, x1, y1)| - 1 ==> Points(x0, y0, x1, y1)[i] != (x1, y1)
  {
    var pts := Points(x0, y0, x1, y1);
    var dx, dy := Abs(x1 - x0), Abs(y1 - y0);
    var o := Offsets(dx, dy, 0, 0);
    AlongReaches(x0, x1, dx);
    AlongReaches(y0, y1, dy);
    assert pts[|pts| - 1] == (Along(x0, x1, dx), Along(y0, y1, dy));
    OffsetsInBox(dx, dy, 0, 0);
    forall i | 0 <= i < |pts| - 1
      ensures pts[i] != (x1, y1)
    {
      var (a, b) := o[i];
      assert 0 <= a && 0 <= b && (a, b) != (dx, dy);
      AlongReaches(x0, x1, a);
      AlongReaches(y0, y1, b);
      assert pts[i] == (Along(x0, x1, a), Along(y0, y1, b));
    }
  }

  /** Consecutive pixels are 8-neighbours: each coordinate moves by at
      most one unit, towards the endpoint, and the pixel changes. */
  lemma {:induction false} LineConnected(x0: int, y0: int, x1: int, y1: int)
    ensures forall i, j :: 0 <= i < j < |Points(x0, y0, x1, y1)| && j == i + 1 ==>
              Neighbour(Points(x0, y0, x1, y1)[i], Points(x0, y0, x1, y1)[j], x0 < x1, y0 < y1)
  {
    var pts := Points(x0, y0, x1, y1);
    var o := Offsets(Abs(x1 - x0), Abs(y1 - y0), 0, 0);
    OffsetsMoves(Abs(x1 - x0), Abs(y1 - y0), 0, 0);
    forall i, j | 0 <= i < j < |pts| && j == i + 1
      ensures Neighbour(pts[i], pts[j], x0 < x1, y0 < y1)
    {
      PlaceStep(x0, y0, x1, y1, o[i], o[j]);
    }
  }

  /** A move of 0 or 1 in each step count, not the null move, is a move
      to an 8-neighbour towards the endpoint. */
  lemma PlaceStep(x0: int, y0: int, x1: int, y1: int, p: (int, int), q: (int, int))
    requires 0 <= q.0 - p.0 <= 1 && 0 <= q.1 - p.1 <= 1 && q != p
    ensures Neighbour(Place(x0, y0, x1, y1, p), Place(x0, y0, x1, y1, q), x0 < x1, y0 < y1)
  {
    if q.0 == p.0 {
      assert q.1 != p.1;
    }
  }

  /** q is p or one of its 8 neighbours, reached by moving x up when
      right holds (down otherwise) and y up when up holds. */
  predicate Neighbour(p: (int, int), q: (int, int), right: bool, up: bool) {
    && (if right then 0 <= q.0 - p.0 <= 1 else 0 <= p.0 - q.0 <= 1)
    && (if up then 0 <= q.1 - p.1 <= 1 else 0 <= p.1 - q.1 <= 1)
    && q != p
  }

  /** Every pixel of the line lies in the box spanned by its endpoints. */
  lemma {:induction false} LineInBox(x0: int, y0: int, x1: int, y1: int)
    ensures forall p :: p in Points(x0, y0, x1, y1) ==>
              && (x0 <= p.0 <= x1 || x1 <= p.0 <= x0)
              && (y0 <= p.1 <= y1 || y1 <= p.1 <= y0)
  {
    var pts := Points(x0, y0, x1, y1);
    var o := Offsets(Abs(x1 - x0), Abs(y1 - y0), 0, 0);
    OffsetsInBox(Abs(x1 - x0), Abs(y1 - y0), 0, 0);
    forall p | p in pts
      ensures x0 <= p.0 <= x1 || x1 <= p.0 <= x0
      ensures y0 <= p.1 <= y1 || y1 <= p.1 <= y0
    {
      var i :| 0 <= i < |pts| && pts[i] == p;
      assert 0 <= o[i].0 <= Abs(x1 - x0) && 0 <= o[i].1 <= Abs(y1 - y0);
    }
  }

  /** The index of the first point outside a w × h image, or |pts| when
      there is none. */
  function FirstOutside(pts: seq<(int, int)>, w: int, h: int): (k: nat)
    ensures k <= |pts|
    ensures forall j :: 0 <= j < k ==> Image.InBounds(pts[j].0, pts[j].1, w, h)
    ensures k < |pts| ==> !Image.InBounds(pts[k].0, pts[k].1, w, h)
  {
    if |pts| == 0 then 0
    else if !Image.InBounds(pts[0].0, pts[0].1, w, h) then 0
    else 1 + FirstOutside(pts[1..], w, h)
  }

  /** FirstOutside is the k before which every point is inside and at
      which, unless k is the length, the point is outside. */
  lemma FirstOutsideIs(pts: seq<(int, int)>, w: int, h: int, k: int)
    requires 0 <= k <= |pts|
    requires forall j :: 0 <= j < k ==> Image.InBounds(pts[j].0, pts[j].1, w, h)
    requires k < |pts| ==> !Image.InBounds(pts[k].0, pts[k].1, w, h)
    ensures FirstOutside(pts, w, h) == k
  {
  }

  /** A line whose endpoints lie in the image lies in it entirely. */
  lemma InsideEndpointsInside(x0: int, y0: int, x1: int, y1: int, w: int, h: int)
    requires Image.InBounds(x0, y0, w, h) && Image.InBounds(x1, y1, w, h)
    ensures FirstOutside(Points(x0, y0, x1, y1), w, h) == |Points(x0, y0, x1, y1)|
  {
    var pts := Points(x0, y0, x1, y1);
    LineInBox(x0, y0, x1, y1);
  }

  /** set_pixel at each point of pts in turn, where a point outside the
      image changes nothing. */
  function PaintAll(px: seq<Pixel>, w: int, h: int, pts: seq<(int, int)>, c: Pixel): (r: seq<Pixel>)
    requires |px| == w * h
    ensures |r| == |px|
    decreases |pts|
  {
    if |pts| == 0 then px
    else
      var before := PaintAll(px, w, h, pts[..|pts| - 1], c);
      var (x, y) := pts[|pts| - 1];
      if Image.InBounds(x, y, w, h) then
        Image.IndexInRange(x, y, w, h);
        before[y * w + x := c]
      else before
  }

  /** After PaintAll a pixel has the colour exactly when pts holds its
      (column, row), and keeps its old value otherwise. */
  lemma {:induction false} PaintAllMeaning(px: seq<Pixel>, w: int, h: int, pts: seq<(int, int)>, c: Pixel)
    requires |px| == w * h && w > 0
    ensures forall i :: 0 <= i < |px| ==>
              PaintAll(px, w, h, pts, c)[i] == if (i % w, i / w) in pts then c else px[i]
    decreases |pts|
  {
    if |pts| > 0 {
      var init := pts[..|pts| - 1];
      var (x, y) := pts[|pts| - 1];
      var before := PaintAll(px, w, h, init, c);
      PaintAllMeaning(px, w, h, init, c);
      assert pts == init + [(x, y)];
      forall i | 0 <= i < |px|
        ensures PaintAll(px, w, h, pts, c)[i] == if (i % w, i / w) in pts then c else px[i]
      {
        FlatInBounds(i, w, h);
        if Image.InBounds(x, y, w, h) {
          Image.FlatCoordinates(x, y, w);
          if i != y * w + x {
            assert (i % w, i / w) != (x, y) by {
              assert i == (i / w) * w + i % w;
            }
          }
        }
      }
    }
  }

  /** A flat index of a w × h vector names an in-bounds pixel. */
  lemma FlatInBounds(i: int, w: int, h: int)
    requires w > 0 && 0 <= i < w * h
    ensures Image.InBounds(i % w, i / w, w, h)
  {
    var q := i / w;
    assert q * w + i % w == i;
    if q >= h {
      MulMono(h, q, w);
    }
  }

  /** The walk from (a, b) is the tail of the whole line's walk from
      pixel index i on. */
  ghost predicate OnLine(dx: nat, dy: nat, i: int, a: int, b: int) {
    && 0 <= a <= dx && 0 <= b <= dy && 0 <= i < |Offsets(dx, dy, 0, 0)|
    && Offsets(dx, dy, a, b) == Offsets(dx, dy, 0, 0)[i..]
  }

  /** The i-th pixel of the line is placed by the counts (a, b). */
  lemma OnLinePixel(x0: int, y0: int, x1: int, y1: int, i: int, a: int, b: int)
    requires OnLine(Abs(x1 - x0), Abs(y1 - y0), i, a, b)
    ensures i < |Points(x0, y0, x1, y1)|
    ensures Points(x0, y0, x1, y1)[i] == Place(x0, y0, x1, y1, (a, b))
  {
    var o := Offsets(Abs(x1 - x0), Abs(y1 - y0), 0, 0);
    assert o[i] == Offsets(Abs(x1 - x0), Abs(y1 - y0), a, b)[0];
  }

  /** Away from the endpoint, Next gives the counts of pixel i + 1. */
  lemma OnLineNext(dx: nat, dy: nat, i: int, a: nat, b: nat)
    requires OnLine(dx, dy, i, a, b) && !(a == dx && b == dy)
    ensures OnLine(dx, dy, i + 1, Next(dx, dy, a, b).0, Next(dx, dy, a, b).1)
  {
    var o := Offsets(dx, dy, 0, 0);
    var n := Next(dx, dy, a, b);
    assert Offsets(dx, dy, n.0, n.1) == Offsets(dx, dy, a, b)[1..];
    assert o[i..][1..] == o[i + 1..];
  }

  /** At the endpoint the pixel is the line's last. */
  lemma OnLineEnd(x0: int, y0: int, x1: int, y1: int, i: int)
    requires OnLine(Abs(x1 - x0), Abs(y1 - y0), i, Abs(x1 - x0), Abs(y1 - y0))
    ensures i == |Points(x0, y0, x1, y1)| - 1
  {
    assert |Offsets(Abs(x1 - x0), Abs(y1 - y0), 0, 0)[i..]| == 1;
  }

  /** Painting the prefix one point longer, with that point inside, is
      one more write. */
  lemma PaintOneMore(px: seq<Pixel>, w: int, h: int, pts: seq<(int, int)>, i: int, c: Pixel)
    requires |px| == w * h && 0 <= i < |pts| && Image.InBounds(pts[i].0, pts[i].1, w, h)
    ensures 0 <= pts[i].1 * w + pts[i].0 < w * h
    ensures PaintAll(px, w, h, pts[..i + 1], c) == PaintAll(px, w, h, pts[..i], c)[pts[i].1 * w + pts[i].0 := c]
  {
    Image.IndexInRange(pts[i].0, pts[i].1, w, h);
    assert pts[..i + 1][..i] == pts[..i];
  }

  /** draw_line_bresenham: dx, dy, the steps sx, sy and err = dx − dy,
      then set_pixel at (x0, y0), a break at (x1, y1), and otherwise the
      two tests on e2 = 2·err, each moving one coordinate. The pixels are
      those of Points painted up to the first one outside the image; that
      one makes set_pixel throw, which the outcome reports. */
  method DrawLineBresenham(image: Image.Bmp, x0: int, y0: int, x1: int, y1: int, color: Pixel)
    returns (o: Outcome)
    requires image.Valid()
    modifies image
    ensures image.Valid() && image.width == old(image.width) && image.height == old(image.height)
    ensures var pts := Points(x0, y0, x1, y1);
            var k := FirstOutside(pts, image.width, image.height);
            && (o.Pass? <==> k == |pts|)
            && (o.Fail? ==> o.error == OutOfRange)
            && image.pixels == PaintAll(old(image.pixels), image.width, image.height, pts[..k], color)
  {
    var dx: int := Abs(x1 - x0);
    var dy: int := Abs(y1 - y0);
    var sx := if x0 < x1 then 1 else -1;
    var sy := if y0 < y1 then 1 else -1;
    var err := dx - dy;
    var x, y := x0, y0;
    ghost var a, b, i := 0, 0, 0;
    ghost var pts := Points(x0, y0, x1, y1);
    ghost var w, h := image.width, image.height;
    assert Times(1, dx) == dx && Times(1, dy) == dy;
    while true
      invariant image.Valid() && image.width == w && image.height == h
      invariant OnLine(dx, dy, i, a, b)
      invariant x == Along(x0, x1, a) && y == Along(y0, y1, b) && err == ErrorTerm(dx, dy, a, b)
      invariant forall j :: 0 <= j < i ==> Image.InBounds(pts[j].0, pts[j].1, w, h)
      invariant image.pixels == PaintAll(old(image.pixels), w, h, pts[..i], color)
      decreases dx - a + dy - b
    {
      var stop;
      o, stop, x, y, err, a, b, i := Visit(image, x0, y0, x1, y1, sx, sy, dx, dy, x, y, err, a, b, i,
                                          pts, old(image.pixels), color);
      if stop {
        return;
      }
    }
  }

  /** One pass of draw_line_bresenham's loop at the line's i-th pixel:
      set_pixel, the break at (x1, y1), and otherwise the two tests on
      e2. It stops with the method's outcome when set_pixel throws or the
      endpoint is drawn, and otherwise moves to pixel i + 1. */
  method Visit(image: Image.Bmp, x0: int, y0: int, x1: int, y1: int, sx: int, sy: int, dx: int, dy: int,
              x: int, y: int, err: int, ghost a: nat, ghost b: nat, ghost i: int,
              ghost pts: seq<(int, int)>, ghost px: seq<Pixel>, color: Pixel)
    returns (o: Outcome, stop: bool, x': int, y': int, err': int, ghost a': nat, ghost b': nat, ghost i': int)
    requires image.Valid() && |px| == image.width * image.height
    requires dx == Abs(x1 - x0) && dy == Abs(y1 - y0)
    requires sx == (if x0 < x1 then 1 else -1) && sy == (if y0 < y1 then 1 else -1)
    requires pts == Points(x0, y0, x1, y1) && OnLine(dx, dy, i, a, b)
    requires x == Along(x0, x1, a) && y == Along(y0, y1, b) && err == ErrorTerm(dx, dy, a, b)
    requires forall j :: 0 <= j < i ==> Image.InBounds(pts[j].0, pts[j].1, image.width, image.height)
    requires image.pixels == PaintAll(px, image.width, image.height, pts[..i], color)
    modifies image
    ensures image.Valid() && image.width == old(image.width) && image.height == old(image.height)
    ensures stop ==> var k := FirstOutside(pts, image.width, image.height);
                     && (o.Pass? <==> k == |pts|) && (o.Fail? ==> o.error == OutOfRange)
                     && image.pixels == PaintAll(px, image.width, image.height, pts[..k], color)
    ensures !stop ==> && OnLine(dx, dy, i', a', b') && a' + b' > a + b
                      && x' == Along(x0, x1, a') && y' == Along(y0, y1, b') && err' == ErrorTerm(dx, dy, a', b')
                      && (forall j :: 0 <= j < i' ==> Image.InBounds(pts[j].0, pts[j].1, image.width, image.height))
                      && image.pixels == PaintAll(px, image.width, image.height, pts[..i'], color)
  {
    x', y', err', a', b', i' := x, y, err, a, b, i;
    OnLinePixel(x0, y0, x1, y1, i, a, b);
    o := Plot(image, x, y, pts, px, i, color);
    stop := true;
    if o.Fail? {
      return;
    }
    AlongReaches(x0, x1, a);
    AlongReaches(y0, y1, b);
    if x == x1 && y == y1 {
      OnLineEnd(x0, y0, x1, y1, i);
      FirstOutsideIs(pts, image.width, image.height, i + 1);
      assert pts[..i + 1] == pts;
      return;
    }
    stop := false;
    OnLineNext(dx, dy, i, a, b);
    x', y', err', a', b' := Advance(x0, y0, x1, y1, sx, sy, dx, dy, x, y, err, a, b);
    i' := i + 1;
  }

  /** The set_pixel call of the loop at the line's i-th pixel, every
      earlier one inside and painted: it throws when this pixel is
      outside, and otherwise paints it too. */
  method Plot(image: Image.Bmp, x: int, y: int, ghost pts: seq<(int, int)>, ghost px: seq<Pixel>,
              ghost i: int, color: Pixel)
    returns (o: Outcome)
    requires image.Valid() && |px| == image.width * image.height && 0 <= i < |pts| && pts[i] == (x, y)
    requires forall j :: 0 <= j < i ==> Image.InBounds(pts[j].0, pts[j].1, image.width, image.height)
    requires image.pixels == PaintAll(px, image.width, image.height, pts[..i], color)
    modifies image
    ensures image.Valid() && image.width == old(image.width) && image.height == old(image.height)
    ensures o.Fail? ==> o.error == OutOfRange && FirstOutside(pts, image.width, image.height) == i
    ensures o.Fail? ==> image.pixels == PaintAll(px, image.width, image.height, pts[..FirstOutside(pts, image.width, image.height)], color)
    ensures o.Pass? ==> forall j :: 0 <= j < i + 1 ==> Image.InBounds(pts[j].0, pts[j].1, image.width, image.height)
    ensures o.Pass? ==> image.pixels == PaintAll(px, image.width, image.height, pts[..i + 1], color)
  {
    o := image.SetPixel(x, y, color);
    if o.Fail? {
      FirstOutsideIs(pts, image.width, image.height, i);
      return;
    }
    PaintOneMore(px, image.width, image.height, pts, i, color);
  }

  /** One pass of the two tests of draw_line_bresenham's loop on
      e2 = 2·err, away from the endpoint: the counts move as Next says,
      and x, y and err follow them. */
  method Advance(x0: int, y0: int, x1: int, y1: int, sx: int, sy: int, dx: int, dy: int,
                 x: int, y: int, err: int, ghost a: nat, ghost b: nat)
    returns (x': int, y': int, err': int, ghost a': nat, ghost b': nat)
    requires dx == Abs(x1 - x0) && dy == Abs(y1 - y0)
    requires sx == (if x0 < x1 then 1 else -1) && sy == (if y0 < y1 then 1 else -1)
    requires a <= dx && b <= dy && !(a == dx && b == dy)
    requires x == Along(x0, x1, a) && y == Along(y0, y1, b) && err == ErrorTerm(dx, dy, a, b)
    ensures a' == Next(dx, dy, a, b).0 && b' == Next(dx, dy, a, b).1
    ensures x' == Along(x0, x1, a') && y' == Along(y0, y1, b') && err' == ErrorTerm(dx, dy, a', b')
  {
    x', y', err', a', b' := x, y, err, a, b;
    var e2 := 2 * err;
    if e2 > -dy {
      err' := err' - dy;
      x' := x' + sx;
      a' := a' + 1;
    }
    if e2 < dx {
      err' := err' + dx;
      y' := y' + sy;
      b' := b' + 1;
    }
    StepInRange(dx, dy, a, b);
  }

  /** int(v + 0.5f): a half added, then truncation toward zero, which
      rounds to the nearest integer for v >= −0.5 only. */
  function Round(v: real): (r: int)
    ensures v >= -0.5 ==> r == (v + 0.5).Floor
  {
    Palette.Trunc(v + 0.5)
  }

  /** std::max(abs(dx), abs(dy)), the number of steps of draw_line_dda. */
  function DdaSteps(x0: int, y0: int, x1: int, y1: int): (n: nat)
    ensures n >= Abs(x1 - x0) && n >= Abs(y1 - y0)
    ensures n == Abs(x1 - x0) || n == Abs(y1 - y0)
  {
    if Abs(x1 - x0) < Abs(y1 - y0) then Abs(y1 - y0) else Abs(x1 - x0)
  }

  /** start with inc added i times, the way the loop advances x and y. */
  function Accumulated(start: real, inc: real, i: int): real
    decreases i
  {
    if i <= 0 then start else Accumulated(start, inc, i - 1) + inc
  }

  /** The accumulated value is start + i·inc. */
  lemma {:induction false} AccumulatedIsLinear(start: real, inc: real, i: nat)
    ensures Accumulated(start, inc, i) == start + i as real * inc
  {
    if i > 0 {
      AccumulatedIsLinear(start, inc, i - 1);
      assert (i - 1) as real * inc + inc == i as real * inc;
    }
  }

  /** The pixel of pass i of draw_line_dda: the start advanced i times by
      dx/steps and dy/steps, each coordinate rounded by Round. */
  function DdaAt(x0: int, y0: int, x1: int, y1: int, i: int): (int, int)
    requires DdaSteps(x0, y0, x1, y1) > 0
  {
    var steps := DdaSteps(x0, y0, x1, y1) as real;
    (Round(Accumulated(x0 as real, (x1 - x0) as real / steps, i)),
     Round(Accumulated(y0 as real, (y1 - y0) as real / steps, i)))
  }

  /** The pixels draw_line_dda sets, in order: (x0, y0) alone when the
      endpoints coincide, otherwise steps + 1 pixels, one per pass of the
      loop. */
  function DdaPoints(x0: int, y0: int, x1: int, y1: int): (pts: seq<(int, int)>)
    ensures |pts| == DdaSteps(x0, y0, x1, y1) + 1
    ensures x0 == x1 && y0 == y1 ==> pts == [(x0, y0)]
  {
    if DdaSteps(x0, y0, x1, y1) == 0 then [(x0, y0)]
    else seq(DdaSteps(x0, y0, x1, y1) + 1, i => DdaAt(x0, y0, x1, y1, i))
  }

  /** Pass i of the loop sets DdaAt(i). */
  lemma DdaPointAt(x0: int, y0: int, x1: int, y1: int, i: int)
    requires DdaSteps(x0, y0, x1, y1) > 0 && 0 <= i <= DdaSteps(x0, y0, x1, y1)
    ensures DdaPoints(x0, y0, x1, y1)[i] == DdaAt(x0, y0, x1, y1, i)
  {
  }

  /** Round is exact on a non-negative integer. */
  lemma RoundInteger(k: int)
    requires k >= 0
    ensures Round(k as real) == k
  {
    assert (k as real + 0.5).Floor == k;
  }

  /** After all steps passes of dx/steps the start has moved by dx. */
  lemma AccumulatedEnd(x0: int, x1: int, steps: nat)
    requires steps > 0
    ensures Accumulated(x0 as real, (x1 - x0) as real / steps as real, steps) == x1 as real
  {
    var d, s := (x1 - x0) as real, steps as real;
    AccumulatedIsLinear(x0 as real, d / s, steps);
    assert s * (d / s) == d;
  }

  /** On non-negative coordinates the DDA line starts at (x0, y0) and
      ends at (x1, y1): the last pass has moved the start by exactly
      (dx, dy). */
  lemma DdaEndpoints(x0: int, y0: int, x1: int, y1: int)
    requires x0 >= 0 && y0 >= 0 && x1 >= 0 && y1 >= 0
    ensures DdaPoints(x0, y0, x1, y1)[0] == (x0, y0)
    ensures DdaPoints(x0, y0, x1, y1)[|DdaPoints(x0, y0, x1, y1)| - 1] == (x1, y1)
  {
    var steps := DdaSteps(x0, y0, x1, y1);
    RoundInteger(x0);
    RoundInteger(y0);
    RoundInteger(x1);
    RoundInteger(y1);
    if steps > 0 {
      AccumulatedEnd(x0, x1, steps);
      AccumulatedEnd(y0, y1, steps);
      assert DdaAt(x0, y0, x1, y1, 0) == (Round(x0 as real), Round(y0 as real));
      assert DdaAt(x0, y0, x1, y1, steps) == (Round(x1 as real), Round(y1 as real));
    }
  }

  /** Truncation toward zero moves a start one column left of the image
      into it: draw_line_dda from (−1, 0) to (3, 0) sets (0, 0) first,
      where draw_line_bresenham starts at (−1, 0) and throws. */
  lemma DdaLeftOfImage()
    ensures DdaPoints(-1, 0, 3, 0)[0] == (0, 0)
    ensures Points(-1, 0, 3, 0)[0] == (-1, 0)
  {
    assert DdaSteps(-1, 0, 3, 0) == 4;
    assert DdaAt(-1, 0, 3, 0, 0) == (Round(-1.0), Round(0.0));
    LineEndpoints(-1, 0, 3, 0);
  }

  /** draw_line_dda: steps = max(|dx|, |dy|); with no step one set_pixel
      at (x0, y0); otherwise x and y start at x0 and y0, and each of the
      steps + 1 passes sets the rounded (x, y) and adds the increments.
      As for draw_line_bresenham, the pixels are those of DdaPoints
      painted up to the first one outside the image, where set_pixel
      throws. */
  method DrawLineDda(image: Image.Bmp, x0: int, y0: int, x1: int, y1: int, color: Pixel)
    returns (o: Outcome)
    requires image.Valid()
    modifies image
    ensures image.Valid() && image.width == old(image.width) && image.height == old(image.height)
    ensures var pts := DdaPoints(x0, y0, x1, y1);
            var k := FirstOutside(pts, image.width, image.height);
            && (o.Pass? <==> k == |pts|)
            && (o.Fail? ==> o.error == OutOfRange)
            && image.pixels == PaintAll(old(image.pixels), image.width, image.height, pts[..k], color)
  {
    ghost var pts := DdaPoints(x0, y0, x1, y1);
    ghost var w, h := image.width, image.height;
    var dx := x1 - x0;
    var dy := y1 - y0;
    var steps := if Abs(dx) < Abs(dy) then Abs(dy) else Abs(dx);
    if steps == 0 {
      assert pts == [(x0, y0)];
      o := Plot(image, x0, y0, pts, image.pixels, 0, color);
      if o.Pass? {
        FirstOutsideIs(pts, w, h, 1);
        assert pts[..1] == pts;
      }
      return;
    }
    var xInc := dx as real / steps as real;
    var yInc := dy as real / steps as real;
    forall i | 0 <= i <= steps
      ensures pts[i] == (Round(Accumulated(x0 as real, xInc, i)), Round(Accumulated(y0 as real, yInc, i)))
    {
      DdaPointAt(x0, y0, x1, y1, i);
    }
    o := DdaLoop(image, x0 as real, y0 as real, xInc, yInc, steps, pts, color);
  }

  /** The loop of draw_line_dda: x and y start at x0 and y0, and each of
      the steps + 1 passes sets the rounded (x, y), then adds the
      increments; pts lists those rounded positions. */
  method DdaLoop(image: Image.Bmp, x0: real, y0: real, xInc: real, yInc: real, steps: int,
                 ghost pts: seq<(int, int)>, color: Pixel)
    returns (o: Outcome)
    requires image.Valid() && steps >= 0 && |pts| == steps + 1
    requires forall i :: 0 <= i <= steps ==>
               pts[i] == (Round(Accumulated(x0, xInc, i)), Round(Accumulated(y0, yInc, i)))
    modifies image
    ensures image.Valid() && image.width == old(image.width) && image.height == old(image.height)
    ensures var k := FirstOutside(pts, image.width, image.height);
            && (o.Pass? <==> k == |pts|)
            && (o.Fail? ==> o.error == OutOfRange)
            && image.pixels == PaintAll(old(image.pixels), image.width, image.height, pts[..k], color)
  {
    ghost var w, h := image.width, image.height;
    var x := x0;
    var y := y0;
    var i := 0;
    while i <= steps
      invariant image.Valid() && image.width == w && image.height == h
      invariant 0 <= i <= steps + 1
      invariant x == Accumulated(x0, xInc, i) && y == Accumulated(y0, yInc, i)
      invariant forall j :: 0 <= j < i ==> Image.InBounds(pts[j].0, pts[j].1, w, h)
      invariant image.pixels == PaintAll(old(image.pixels), w, h, pts[..i], color)
    {
      o := Plot(image, Round(x), Round(y), pts, old(image.pixels), i, color);
      if o.Fail? {
        return;
      }
      x := x + xInc;
      y := y + yInc;
      i := i + 1;
    }
    FirstOutsideIs(pts, w, h, |pts|);
    assert pts[..|pts|] == pts;
    o := Pass;
  }

  /** fill_background: set_pixel at every (x, y) in row-major order, so
      every pixel of the image becomes the colour. */
  method FillBackground(image: Image.Bmp, color: Pixel)
    requires image.Valid()
    modifies image
    ensures image.Valid() && image.width == old(image.width) && image.height == old(image.height)
    ensures image.width > 0 && image.height >= 0 ==> image.pixels == Repeat(color, image.width * image.height)
    ensures image.width <= 0 || image.height <= 0 ==> image.pixels == old(image.pixels)
  {
    ghost var w, h := image.width, image.height;
    var y := 0;
    while y < image.height
      invariant image.Valid() && image.width == w && image.height == h
      invariant 0 <= y && (h >= 0 ==> y <= h)
      invariant w <= 0 ==> image.pixels == old(image.pixels)
      invariant w > 0 ==> y * w <= |image.pixels| && forall i :: 0 <= i < y * w ==> image.pixels[i] == color
    {
      FillRow(image, color, y);
      y := y + 1;
    }
    if w > 0 && h >= 0 {
      assert y == h;
      assert image.pixels == Repeat(color, w * h);
    }
  }

  /** One pass of fill_background's outer loop: set_pixel across row y,
      which extends the filled prefix by a row (and changes nothing when
      the width is not positive). */
  method FillRow(image: Image.Bmp, color: Pixel, y: int)
    requires image.Valid() && 0 <= y < image.height
    requires image.width > 0 ==>
               y * image.width <= |image.pixels| && forall i :: 0 <= i < y * image.width ==> image.pixels[i] == color
    modifies image
    ensures image.Valid() && image.width == old(image.width) && image.height == old(image.height)
    ensures image.width <= 0 ==> image.pixels == old(image.pixels)
    ensures image.width > 0 ==>
              (y + 1) * image.width <= |image.pixels|
              && forall i :: 0 <= i < (y + 1) * image.width ==> image.pixels[i] == color
  {
    ghost var w, h := image.width, image.height;
    var x := 0;
    while x < image.width
      invariant image.Valid() && image.width == w && image.height == h
      invariant 0 <= x && (w > 0 ==> x <= w) && (w <= 0 ==> x == 0)
      invariant w <= 0 ==> image.pixels == old(image.pixels)
      invariant w > 0 ==> y * w + x <= |image.pixels|
      invariant w > 0 ==> forall i :: 0 <= i < y * w + x ==> image.pixels[i] == color
    {
      Image.IndexInRange(x, y, w, h);
      var r := image.SetPixel(x, y, color);
      assert r.Pass?;
      x := x + 1;
    }
    if w > 0 {
      MulStep(y + 1, w);
    }
  }
}
