/** The distance of two boxes (MinerU/mineru/utils/boxbase.py). */
module BoxDistances {
  import opened Basics

  /** The square root on what is not negative. */
  ghost predicate IsRoot(root: real -> real) {
    forall x {:trigger root(x)} | x >= 0.0 :: root(x) >= 0.0 && root(x) * root(x) == x
  }

  ghost predicate WellFormed(b: RealBox) {
    b.x0 <= b.x1 && b.y0 <= b.y1
  }

  ghost predicate Inside(b: RealBox, x: real, y: real) {
    b.x0 <= x <= b.x1 && b.y0 <= y <= b.y1
  }

  function Squared(x: real, y: real, u: real, v: real): real {
    (x - u) * (x - u) + (y - v) * (y - v)
  }

  /** The distance from corner to corner or from edge to edge, depending on how the second box lies to the first. */
  function BoxDistance(root: real -> real, a: RealBox, b: RealBox): real {
    var (left, right, bottom, top) := (b.x1 < a.x0, a.x1 < b.x0, b.y1 < a.y0, a.y1 < b.y0);
    if top && left then root(Squared(a.x0, a.y1, b.x1, b.y0))
    else if left && bottom then root(Squared(a.x0, a.y0, b.x1, b.y1))
    else if bottom && right then root(Squared(a.x1, a.y0, b.x0, b.y1))
    else if right && top then root(Squared(a.x1, a.y1, b.x0, b.y0))
    else if left then a.x0 - b.x1
    else if right then b.x0 - a.x1
    else if bottom then a.y0 - b.y1
    else if top then b.y0 - a.y1
    else 0.0
  }

  /** How far [p, q] and [u, v] are apart. */
  function Gap(p: real, q: real, u: real, v: real): real {
    if v < p then p - v else if q < u then u - q else 0.0
  }

  lemma SquareGrows(a: real, b: real)
    requires 0.0 <= a && (a <= b || a <= -b)
    ensures a * a <= b * b
  {
    var c := if a <= b then b else -b;
    assert a * a <= c * a <= c * c;
  }

  lemma SquareIgnoresSign(x: real, w: real)
    requires x == w || x == -w
    ensures x * x == w * w
  {
  }

  lemma DistanceFromGaps(root: real -> real, a: RealBox, b: RealBox, w: real, h: real)
    requires IsRoot(root) && WellFormed(a) && WellFormed(b)
    requires w == Gap(a.x0, a.x1, b.x0, b.x1) && h == Gap(a.y0, a.y1, b.y0, b.y1)
    ensures BoxDistance(root, a, b) >= 0.0
    ensures BoxDistance(root, a, b) * BoxDistance(root, a, b) == w * w + h * h
  {
    if w > 0.0 && h > 0.0 {
      CornersApart(root, a, b, w, h);
    } else {
      assert BoxDistance(root, a, b) == if w > 0.0 then w else h;
    }
  }

  lemma CornersApart(root: real -> real, a: RealBox, b: RealBox, w: real, h: real)
    requires IsRoot(root) && w > 0.0 && h > 0.0 && WellFormed(a) && WellFormed(b)
    requires w == Gap(a.x0, a.x1, b.x0, b.x1) && h == Gap(a.y0, a.y1, b.y0, b.y1)
    ensures BoxDistance(root, a, b) == root(w * w + h * h)
    ensures w * w + h * h >= 0.0
  {
    var x, u := if b.x1 < a.x0 then a.x0 else a.x1, if b.x1 < a.x0 then b.x1 else b.x0;
    var y, v := if a.y1 < b.y0 then a.y1 else a.y0, if a.y1 < b.y0 then b.y0 else b.y1;
    assert BoxDistance(root, a, b) == root(Squared(x, y, u, v));
    SquareIgnoresSign(x - u, w);
    SquareIgnoresSign(y - v, h);
    assert Squared(x, y, u, v) == w * w + h * h;
  }

  lemma GapIsLeast(p: real, q: real, u: real, v: real, s: real, t: real)
    requires p <= s <= q && u <= t <= v
    ensures Gap(p, q, u, v) * Gap(p, q, u, v) <= (s - t) * (s - t)
  {
    SquareGrows(Gap(p, q, u, v), s - t);
  }

  /** Points of two intervals that are the gap apart. */
  lemma GapIsAttained(p: real, q: real, u: real, v: real) returns (s: real, t: real)
    requires p <= q && u <= v
    ensures p <= s <= q && u <= t <= v && (s - t) * (s - t) == Gap(p, q, u, v) * Gap(p, q, u, v)
  {
    s := if v < p then p else if q < u then q else if p < u then u else p;
    t := if v < p then v else if q < u then u else if p < u then u else p;
    SquareIgnoresSign(s - t, Gap(p, q, u, v));
  }

  /** No two points of the boxes are nearer to each other than the boxes. */
  lemma DistanceIsLeast(root: real -> real, a: RealBox, b: RealBox, x: real, y: real, u: real, v: real)
    requires IsRoot(root) && Inside(a, x, y) && Inside(b, u, v)
    ensures var d := BoxDistance(root, a, b); d >= 0.0 && d * d <= (x - u) * (x - u) + (y - v) * (y - v)
  {
    DistanceFromGaps(root, a, b, Gap(a.x0, a.x1, b.x0, b.x1), Gap(a.y0, a.y1, b.y0, b.y1));
    GapIsLeast(a.x0, a.x1, b.x0, b.x1, x, u);
    GapIsLeast(a.y0, a.y1, b.y0, b.y1, y, v);
  }

  /** Some two points of the boxes are as near to each other as the boxes. */
  lemma DistanceIsAttained(root: real -> real, a: RealBox, b: RealBox) returns (x: real, y: real, u: real, v: real)
    requires IsRoot(root) && WellFormed(a) && WellFormed(b)
    ensures Inside(a, x, y) && Inside(b, u, v)
    ensures var d := BoxDistance(root, a, b); d * d == (x - u) * (x - u) + (y - v) * (y - v)
  {
    DistanceFromGaps(root, a, b, Gap(a.x0, a.x1, b.x0, b.x1), Gap(a.y0, a.y1, b.y0, b.y1));
    x, u := GapIsAttained(a.x0, a.x1, b.x0, b.x1);
    y, v := GapIsAttained(a.y0, a.y1, b.y0, b.y1);
  }

  /** No box is nearer to a box than this is to itself. */
  lemma NoneIsNearerThanItself(root: real -> real, a: RealBox, b: RealBox)
    requires IsRoot(root) && WellFormed(a) && WellFormed(b)
    ensures BoxDistance(root, a, a) == 0.0 <= BoxDistance(root, a, b)
  {
    DistanceFromGaps(root, a, b, Gap(a.x0, a.x1, b.x0, b.x1), Gap(a.y0, a.y1, b.y0, b.y1));
  }
}
