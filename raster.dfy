/**
 * The vectorizer's pixel plane as a value: one alpha byte per pixel, indexed
 * column first as the image stores it. Reading outside the plane gives 0 and
 * writing outside it changes nothing. A lit (non-zero) pixel belongs to the
 * 4-connected region of every lit pixel it can be reached from through lit
 * pixels, stepping left, right, up or down.
 */
module Raster {
  import opened Bits

  /** A pixel position. */
  datatype Coord = Coord(x: int, y: int)

  /** A `width` by `height` plane; pixel `(x, y)` is `cells[x][y]`. */
  datatype Plane = Plane(width: nat, height: nat, cells: seq<seq<byte>>)
  {
    predicate Valid() {
      && |cells| == width
      && forall x :: 0 <= x < |cells| ==> |cells[x]| == height
    }

    predicate Inside(x: int, y: int) {
      0 <= x < width && 0 <= y < height
    }
  }

  /** Pixel `(x, y)`, or 0 outside the plane. */
  function At(p: Plane, x: int, y: int): (b: byte)
    requires p.Valid()
    ensures b != 0 ==> p.Inside(x, y)
  {
    if p.Inside(x, y) then p.cells[x][y] else 0
  }

  /** The plane with pixel `(x, y)` set to `v`; outside the plane nothing changes. */
  function Put(p: Plane, x: int, y: int, v: byte): (q: Plane)
    requires p.Valid()
    ensures q.Valid() && q.width == p.width && q.height == p.height
  {
    if p.Inside(x, y) then
      var column: seq<byte> := p.cells[x][y := v];
      p.(cells := p.cells[x := column])
    else p
  }

  /** Reading back a written pixel gives the value written, inside the plane; every other pixel is unchanged. */
  lemma PutAt(p: Plane, x: int, y: int, v: byte, x': int, y': int)
    requires p.Valid()
    ensures At(Put(p, x, y, v), x', y') == if x' == x && y' == y && p.Inside(x, y) then v else At(p, x', y')
  {
  }

  /** A plane of the given size with every pixel 0. */
  function Blank(width: nat, height: nat): (p: Plane)
    ensures p.Valid() && p.width == width && p.height == height
    ensures forall x, y :: At(p, x, y) == 0
  {
    var column: seq<byte> := seq(height, _ => 0);
    Plane(width, height, seq(width, _ => column))
  }

  /** Two planes of one size that agree on every pixel are the same plane. */
  lemma {:induction false} SamePixels(p: Plane, q: Plane)
    requires p.Valid() && q.Valid() && p.width == q.width && p.height == q.height
    requires forall x, y :: p.Inside(x, y) ==> At(p, x, y) == At(q, x, y)
    ensures p == q
  {
    forall x | 0 <= x < p.width
      ensures p.cells[x] == q.cells[x]
    {
      forall y | 0 <= y < p.height
        ensures p.cells[x][y] == q.cells[x][y]
      {
        assert At(p, x, y) == At(q, x, y);
      }
    }
  }

  predicate Lit(p: Plane, c: Coord)
    requires p.Valid()
  {
    At(p, c.x, c.y) != 0
  }

  /** The lit pixels of the plane. */
  function LitSet(p: Plane): set<Coord>
    requires p.Valid()
  {
    set x, y | 0 <= x < p.width && 0 <= y < p.height && p.cells[x][y] != 0 :: Coord(x, y)
  }

  /** Darkening a lit pixel leaves fewer lit pixels. */
  lemma DarkenShrinks(p: Plane, c: Coord)
    requires p.Valid() && Lit(p, c)
    ensures |LitSet(Put(p, c.x, c.y, 0))| < |LitSet(p)|
  {
    var q := Put(p, c.x, c.y, 0);
    forall d | d in LitSet(q)
      ensures d in LitSet(p) && d != c
    {
      PutAt(p, c.x, c.y, 0, d.x, d.y);
    }
    assert LitSet(q) <= LitSet(p) - {c};
    assert c in LitSet(p);
    assert |LitSet(p) - {c}| == |LitSet(p)| - 1;
    SubsetCard(LitSet(q), LitSet(p) - {c});
  }

  lemma {:induction false} SubsetCard<T>(a: set<T>, b: set<T>)
    requires a <= b
    ensures |a| <= |b|
    decreases |b|
  {
    if a != {} {
      var e :| e in a;
      SubsetCard(a - {e}, b - {e});
    }
  }

  /** `b` is one step left, right, up or down from `a`. */
  predicate Adjacent(a: Coord, b: Coord) {
    || b == Coord(a.x - 1, a.y)
    || b == Coord(a.x + 1, a.y)
    || b == Coord(a.x, a.y - 1)
    || b == Coord(a.x, a.y + 1)
  }

  /** A walk through lit pixels, each step to an adjacent one. */
  predicate LitPath(p: Plane, ps: seq<Coord>)
    requires p.Valid()
  {
    && |ps| >= 1
    && (forall i :: 0 <= i < |ps| ==> Lit(p, ps[i]))
    && (forall i :: 0 < i < |ps| ==> Adjacent(ps[i - 1], ps[i]))
  }

  /** `c` lies in the 4-connected lit region of `s`; both are then lit. */
  ghost predicate InRegion(p: Plane, s: Coord, c: Coord)
    requires p.Valid()
    ensures InRegion(p, s, c) ==> Lit(p, s) && Lit(p, c)
  {
    exists ps :: LitPath(p, ps) && ps[0] == s && ps[|ps| - 1] == c
  }

  /** A lit pixel is in its own region; a dark one is in no region. */
  lemma RegionStart(p: Plane, s: Coord)
    requires p.Valid()
    ensures InRegion(p, s, s) <==> Lit(p, s)
  {
    if Lit(p, s) {
      assert LitPath(p, [s]);
    }
  }

  /** The region is closed under stepping to an adjacent lit pixel. */
  lemma RegionStep(p: Plane, s: Coord, c: Coord, n: Coord)
    requires p.Valid() && InRegion(p, s, c) && Adjacent(c, n) && Lit(p, n)
    ensures InRegion(p, s, n)
  {
    var ps :| LitPath(p, ps) && ps[0] == s && ps[|ps| - 1] == c;
    var qs := ps + [n];
    assert LitPath(p, qs);
  }

  /** Every pixel of a region is lit. */
  lemma RegionLit(p: Plane, s: Coord, c: Coord)
    requires p.Valid() && InRegion(p, s, c)
    ensures Lit(p, c)
  {
  }

  /**
   * The plane with the region of `s` darkened: what erasing by flood fill
   * from `s` must leave.
   */
  ghost function Erased(p: Plane, s: Coord): (q: Plane)
    requires p.Valid()
    ensures q.Valid() && q.width == p.width && q.height == p.height
    ensures forall x, y :: At(q, x, y) == if InRegion(p, s, Coord(x, y)) then 0 else At(p, x, y)
  {
    var q := Plane(p.width, p.height,
      seq(p.width, x requires 0 <= x < p.width =>
        seq(p.height, y requires 0 <= y < p.height =>
          (if InRegion(p, s, Coord(x, y)) then 0 else p.cells[x][y]) as byte)));
    forall x, y
      ensures At(q, x, y) == if InRegion(p, s, Coord(x, y)) then 0 else At(p, x, y)
    {
      if !p.Inside(x, y) {
        if InRegion(p, s, Coord(x, y)) {
          RegionLit(p, s, Coord(x, y));
        }
      }
    }
    q
  }

  /** Erasing from a dark pixel changes nothing. */
  lemma EraseDark(p: Plane, s: Coord)
    requires p.Valid() && !Lit(p, s)
    ensures Erased(p, s) == p
  {
    forall x, y | p.Inside(x, y)
      ensures At(Erased(p, s), x, y) == At(p, x, y)
    {
    }
    SamePixels(Erased(p, s), p);
  }

  /** Erasing darkens the start pixel and only ever darkens pixels. */
  lemma EraseDarkens(p: Plane, s: Coord)
    requires p.Valid()
    ensures !Lit(Erased(p, s), s)
    ensures forall x, y :: At(Erased(p, s), x, y) == 0 || At(Erased(p, s), x, y) == At(p, x, y)
  {
    RegionStart(p, s);
  }

  /**
   * If a darkened set contains the start (when lit) and every lit neighbour
   * of a darkened pixel is darkened too, it holds the whole region.
   */
  lemma {:induction false} RegionDarkened(p: Plane, q: Plane, s: Coord, c: Coord)
    requires p.Valid() && q.Valid()
    requires Lit(p, s) ==> !Lit(q, s)
    requires forall d :: Lit(p, d) && !Lit(q, d) ==> Sealed(p, q, d)
    requires InRegion(p, s, c)
    ensures !Lit(q, c)
  {
    var ps :| LitPath(p, ps) && ps[0] == s && ps[|ps| - 1] == c;
    PathDarkened(p, q, ps);
  }

  /** Every lit pixel adjacent to `d` is dark in `q`. */
  predicate Sealed(p: Plane, q: Plane, d: Coord)
    requires p.Valid() && q.Valid()
  {
    && (Lit(p, Coord(d.x - 1, d.y)) ==> !Lit(q, Coord(d.x - 1, d.y)))
    && (Lit(p, Coord(d.x + 1, d.y)) ==> !Lit(q, Coord(d.x + 1, d.y)))
    && (Lit(p, Coord(d.x, d.y - 1)) ==> !Lit(q, Coord(d.x, d.y - 1)))
    && (Lit(p, Coord(d.x, d.y + 1)) ==> !Lit(q, Coord(d.x, d.y + 1)))
  }

  lemma {:induction false} PathDarkened(p: Plane, q: Plane, ps: seq<Coord>)
    requires p.Valid() && q.Valid() && LitPath(p, ps)
    requires !Lit(q, ps[0])
    requires forall d :: Lit(p, d) && !Lit(q, d) ==> Sealed(p, q, d)
    ensures !Lit(q, ps[|ps| - 1])
    decreases |ps|
  {
    if |ps| > 1 {
      var init := ps[..|ps| - 1];
      assert LitPath(p, init) by {
        forall i | 0 < i < |init|
          ensures Adjacent(init[i - 1], init[i])
        {
          assert init[i - 1] == ps[i - 1] && init[i] == ps[i];
        }
      }
      PathDarkened(p, q, init);
      var d := ps[|ps| - 2];
      assert Lit(p, d) && !Lit(q, d);
      assert Sealed(p, q, d);
      assert Adjacent(d, ps[|ps| - 1]);
    }
  }
}
