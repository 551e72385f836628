/**
 * The exact-integer geometry kernel: vertices, bounding rectangles, the
 * open segment-crossing test, closed polygon rings (with a duplicated
 * closing vertex), the ray-parity containment test, polygon overlap and
 * the node/transistor records built on them.
 *
 * Coordinates are mathematical integers. The crossing test divides two
 * 64-bit cross products in `long double` to compare the segment
 * parameters with 0 and 1; here the same comparisons are made exactly on
 * the integer numerators and the determinant.
 */
module Geometry {
  import opened Wrappers

  datatype Vertex = Vertex(x: int, y: int)

  /** A bounding rectangle, in the field order of the record it models. */
  datatype Rect = Rect(xmin: int, ymin: int, xmax: int, ymax: int)

  const INT_MAX: int := 0x7FFF_FFFF
  const INT_MIN: int := -0x8000_0000

  /** The horizontal and vertical offset of the far end of the containment ray. */
  const RAY_DX: int := 100000
  const RAY_DY: int := 100

  // ---------------------------------------------------------------------
  // Segment crossing
  // ---------------------------------------------------------------------

  /** Determinant of the two direction vectors (zero iff parallel). */
  function Det(p1: Vertex, p2: Vertex, q1: Vertex, q2: Vertex): int {
    (q2.y - q1.y) * (p2.x - p1.x) - (q2.x - q1.x) * (p2.y - p1.y)
  }

  /** Numerator of the parameter along p1-p2 of the crossing point. */
  function NumA(p1: Vertex, p2: Vertex, q1: Vertex, q2: Vertex): int {
    (q2.x - q1.x) * (p1.y - q1.y) - (q2.y - q1.y) * (p1.x - q1.x)
  }

  /** Numerator of the parameter along q1-q2 of the crossing point. */
  function NumB(p1: Vertex, p2: Vertex, q1: Vertex, q2: Vertex): int {
    (p2.x - p1.x) * (p1.y - q1.y) - (p2.y - p1.y) * (p1.x - q1.x)
  }

  /** n / d lies in the closed interval [0, 1] (d nonzero). */
  predicate InClosedUnit(n: int, d: int) {
    if d > 0 then 0 <= n <= d else d <= n <= 0
  }

  /** n / d lies in the open interval (0, 1) (d nonzero). */
  predicate InOpenUnit(n: int, d: int) {
    if d > 0 then 0 < n < d else d < n < 0
  }

  /**
   * Do the segments p1-p2 and q1-q2 cross? Parallel segments never do, and
   * a touch at an endpoint (a parameter equal to 0 or 1 while the other
   * lies in [0, 1]) is reported as no crossing.
   */
  function Intersect(p1: Vertex, p2: Vertex, q1: Vertex, q2: Vertex): (r: bool)
    ensures r <==> Det(p1, p2, q1, q2) != 0
                   && InOpenUnit(NumA(p1, p2, q1, q2), Det(p1, p2, q1, q2))
                   && InOpenUnit(NumB(p1, p2, q1, q2), Det(p1, p2, q1, q2))
  {
    var d := Det(p1, p2, q1, q2);
    if d == 0 then false
    else
      var ua := NumA(p1, p2, q1, q2);
      var ub := NumB(p1, p2, q1, q2);
      if ((ua == 0 || ua == d) && InClosedUnit(ub, d)) || ((ub == 0 || ub == d) && InClosedUnit(ua, d)) then false
      else InOpenUnit(ua, d) && InOpenUnit(ub, d)
  }

  /** Parallel or collinear segments never cross. */
  lemma ParallelNeverCrosses(p1: Vertex, p2: Vertex, q1: Vertex, q2: Vertex)
    requires Det(p1, p2, q1, q2) == 0
    ensures !Intersect(p1, p2, q1, q2)
  {
  }

  /** A crossing parameter exactly 0 or 1 (an endpoint on the other line) is never a crossing. */
  lemma EndpointNeverCrosses(p1: Vertex, p2: Vertex, q1: Vertex, q2: Vertex)
    requires var d := Det(p1, p2, q1, q2);
             var ua := NumA(p1, p2, q1, q2);
             var ub := NumB(p1, p2, q1, q2);
             ua == 0 || ua == d || ub == 0 || ub == d
    ensures !Intersect(p1, p2, q1, q2)
  {
  }

  /** The point at parameter n/d along a-b, scaled by d: d*a + n*(b - a). */
  function ScaledPointAt(a: Vertex, b: Vertex, n: int, d: int): Vertex {
    Vertex(d * a.x + n * (b.x - a.x), d * a.y + n * (b.y - a.y))
  }

  /**
   * The two parameters name one and the same point: the crossing point of
   * the two lines, taken along p1-p2 at NumA/Det and along q1-q2 at NumB/Det.
   * So Intersect holds exactly when the lines meet at a point strictly
   * inside both segments.
   */
  lemma {:induction false} CrossingPointIsShared(p1: Vertex, p2: Vertex, q1: Vertex, q2: Vertex)
    ensures var d := Det(p1, p2, q1, q2);
            ScaledPointAt(p1, p2, NumA(p1, p2, q1, q2), d) == ScaledPointAt(q1, q2, NumB(p1, p2, q1, q2), d)
  {
    var ux, uy := p2.x - p1.x, p2.y - p1.y;
    var vx, vy := q2.x - q1.x, q2.y - q1.y;
    var wx, wy := p1.x - q1.x, p1.y - q1.y;
    var d, na, nb := Det(p1, p2, q1, q2), NumA(p1, p2, q1, q2), NumB(p1, p2, q1, q2);
    assert d == vy * ux - vx * uy && na == vx * wy - vy * wx && nb == ux * wy - uy * wx;
    Rotation(ux, uy, vx, vy, wx, wy);
    Rotation(uy, ux, vy, vx, wy, wx);
    Rebased(p1.x, q1.x, ux, vx, d, na, nb);
    Rebased(p1.y, q1.y, uy, vy, d, na, nb);
  }

  /** A relation between offsets from c, moved back to absolute coordinates. */
  lemma Rebased(a: int, c: int, u: int, v: int, d: int, na: int, nb: int)
    requires d * (a - c) + na * u == nb * v
    ensures d * a + na * u == d * c + nb * v
  {
    assert d * (a - c) == d * a - d * c;
  }

  /** The identity behind the shared crossing point, on plain integers. */
  lemma Rotation(ux: int, uy: int, vx: int, vy: int, wx: int, wy: int)
    ensures (vy * ux - vx * uy) * wx + (vx * wy - vy * wx) * ux == (ux * wy - uy * wx) * vx
  {
    calc {
      (vy * ux - vx * uy) * wx + (vx * wy - vy * wx) * ux;
      vy * ux * wx - vx * uy * wx + vx * wy * ux - vy * wx * ux;
      vx * wy * ux - vx * uy * wx;
      (ux * wy - uy * wx) * vx;
    }
  }

  /** Swapping the two segments does not change the verdict. */
  lemma {:induction false} IntersectSymmetric(p1: Vertex, p2: Vertex, q1: Vertex, q2: Vertex)
    ensures Intersect(p1, p2, q1, q2) == Intersect(q1, q2, p1, p2)
  {
    var d := Det(p1, p2, q1, q2);
    assert Det(q1, q2, p1, p2) == -d;
    assert NumA(q1, q2, p1, p2) == -NumB(p1, p2, q1, q2);
    assert NumB(q1, q2, p1, p2) == -NumA(p1, p2, q1, q2);
  }

  function Shift(v: Vertex, dx: int, dy: int): Vertex {
    Vertex(v.x + dx, v.y + dy)
  }

  /** The test reads only coordinate differences, so a common translation leaves it unchanged. */
  lemma {:induction false} IntersectTranslate(p1: Vertex, p2: Vertex, q1: Vertex, q2: Vertex, dx: int, dy: int)
    ensures Intersect(Shift(p1, dx, dy), Shift(p2, dx, dy), Shift(q1, dx, dy), Shift(q2, dx, dy))
         == Intersect(p1, p2, q1, q2)
  {
    var s1, s2, t1, t2 := Shift(p1, dx, dy), Shift(p2, dx, dy), Shift(q1, dx, dy), Shift(q2, dx, dy);
    assert s2.x - s1.x == p2.x - p1.x && s2.y - s1.y == p2.y - p1.y;
    assert t2.x - t1.x == q2.x - q1.x && t2.y - t1.y == q2.y - q1.y;
    assert s1.x - t1.x == p1.x - q1.x && s1.y - t1.y == p1.y - q1.y;
    assert Det(s1, s2, t1, t2) == Det(p1, p2, q1, q2);
    assert NumA(s1, s2, t1, t2) == NumA(p1, p2, q1, q2);
    assert NumB(s1, s2, t1, t2) == NumB(p1, p2, q1, q2);
  }

  // ---------------------------------------------------------------------
  // Rings: the vertex list of a closed polygon; edge i (1 <= i < |vs|)
  // joins vs[i-1] and vs[i]
  // ---------------------------------------------------------------------

  /** A finished ring: its last vertex repeats its first. */
  predicate Closed(vs: seq<Vertex>) {
    |vs| >= 2 && vs[|vs| - 1] == vs[0]
  }

  /** Every coordinate fits the 32-bit `int` of the record it models. */
  predicate InRange(vs: seq<Vertex>) {
    forall i :: 0 <= i < |vs| ==> INT_MIN <= vs[i].x <= INT_MAX && INT_MIN <= vs[i].y <= INT_MAX
  }

  /** Edge i of vs is crossed by the segment a-b. */
  predicate EdgeCrossed(vs: seq<Vertex>, i: int, a: Vertex, b: Vertex)
    requires 1 <= i < |vs|
  {
    Intersect(a, b, vs[i - 1], vs[i])
  }

  /** The number of edges 1 .. n-1 of vs crossed by the segment a-b. */
  function CrossCount(vs: seq<Vertex>, a: Vertex, b: Vertex, n: nat): (c: nat)
    requires n <= |vs|
    ensures c < n || c == 0
  {
    if n <= 1 then 0
    else CrossCount(vs, a, b, n - 1) + (if EdgeCrossed(vs, n - 1, a, b) then 1 else 0)
  }

  /** No edge crossed means a count of zero. */
  lemma {:induction false} CrossCountNone(vs: seq<Vertex>, a: Vertex, b: Vertex, n: nat)
    requires n <= |vs| && forall i :: 1 <= i < n ==> !EdgeCrossed(vs, i, a, b)
    ensures CrossCount(vs, a, b, n) == 0
  {
    if n > 1 {
      CrossCountNone(vs, a, b, n - 1);
    }
  }

  /** The far end of the containment ray from v, at a slight angle to the x axis. */
  function Far(v: Vertex): Vertex {
    Vertex(v.x + RAY_DX, v.y + RAY_DY)
  }

  /**
   * v is inside the ring when the ray from v crosses an odd number of its
   * edges; a ring without an edge holds no point.
   */
  predicate Inside(vs: seq<Vertex>, v: Vertex)
    ensures Inside(vs, v) ==> |vs| >= 2
  {
    CrossCount(vs, v, Far(v), |vs|) % 2 == 1
  }

  /** Some vertex of o other than vertex 0 is inside p. */
  predicate VertexInside(p: seq<Vertex>, o: seq<Vertex>) {
    exists i :: 1 <= i < |o| && Inside(p, o[i])
  }

  /** Edge i of p crosses edge j of o. */
  predicate EdgesMeet(p: seq<Vertex>, i: int, o: seq<Vertex>, j: int)
    requires 1 <= i < |p| && 1 <= j < |o|
  {
    Intersect(p[i - 1], p[i], o[j - 1], o[j])
  }

  /** Some edge of p crosses some edge of o. */
  predicate EdgesCross(p: seq<Vertex>, o: seq<Vertex>) {
    exists i, j :: 1 <= i < |p| && 1 <= j < |o| && EdgesMeet(p, i, o, j)
  }

  /** Ring p overlaps ring o: a vertex of o is inside p, or two edges cross; rings without an edge overlap nothing. */
  predicate OverlapsRing(p: seq<Vertex>, o: seq<Vertex>)
    ensures OverlapsRing(p, o) ==> |p| >= 2 && |o| >= 2
  {
    VertexInside(p, o) || EdgesCross(p, o)
  }

  function Translate(vs: seq<Vertex>, dx: int, dy: int): (r: seq<Vertex>)
    ensures |r| == |vs|
    ensures forall i :: 0 <= i < |vs| ==> r[i] == Shift(vs[i], dx, dy)
  {
    seq(|vs|, i requires 0 <= i < |vs| => Shift(vs[i], dx, dy))
  }

  lemma {:induction false} CrossCountTranslate(vs: seq<Vertex>, a: Vertex, b: Vertex, n: nat, dx: int, dy: int)
    requires n <= |vs|
    ensures CrossCount(Translate(vs, dx, dy), Shift(a, dx, dy), Shift(b, dx, dy), n) == CrossCount(vs, a, b, n)
  {
    if n > 1 {
      CrossCountTranslate(vs, a, b, n - 1, dx, dy);
      var ts := Translate(vs, dx, dy);
      IntersectTranslate(a, b, vs[n - 2], vs[n - 1], dx, dy);
      assert EdgeCrossed(ts, n - 1, Shift(a, dx, dy), Shift(b, dx, dy)) == EdgeCrossed(vs, n - 1, a, b);
    }
  }

  /** Moving a ring and a point together does not change whether the point is inside. */
  lemma InsideTranslate(vs: seq<Vertex>, v: Vertex, dx: int, dy: int)
    ensures Inside(Translate(vs, dx, dy), Shift(v, dx, dy)) == Inside(vs, v)
  {
    assert Far(Shift(v, dx, dy)) == Shift(Far(v), dx, dy);
    CrossCountTranslate(vs, v, Far(v), |vs|, dx, dy);
  }

  /** Whether the segment a-b crosses the edge from u to w, as a count. */
  function Crossed(u: Vertex, w: Vertex, a: Vertex, b: Vertex): nat {
    if Intersect(a, b, u, w) then 1 else 0
  }

  /** The count over the first n vertices reads only those vertices. */
  lemma {:induction false} CrossCountPrefix(us: seq<Vertex>, ws: seq<Vertex>, a: Vertex, b: Vertex, n: nat)
    requires n <= |us| && n <= |ws| && us[..n] == ws[..n]
    ensures CrossCount(us, a, b, n) == CrossCount(ws, a, b, n)
  {
    if n > 1 {
      assert us[..n - 1] == ws[..n - 1];
      CrossCountPrefix(us, ws, a, b, n - 1);
      assert us[n - 2] == us[..n][n - 2] && ws[n - 2] == ws[..n][n - 2];
      assert us[n - 1] == us[..n][n - 1] && ws[n - 1] == ws[..n][n - 1];
    }
  }

  /**
   * The edges of s + t are those of s, the edge joining them, and those of
   * the first n vertices of t.
   */
  lemma {:induction false} CrossCountJoin(s: seq<Vertex>, t: seq<Vertex>, a: Vertex, b: Vertex, n: nat)
    requires |s| >= 1 && 1 <= n <= |t|
    ensures CrossCount(s + t, a, b, |s| + n)
         == CrossCount(s, a, b, |s|) + Crossed(s[|s| - 1], t[0], a, b) + CrossCount(t, a, b, n)
    decreases n
  {
    var st := s + t;
    if n == 1 {
      assert st[..|s|] == s[..|s|];
      CrossCountPrefix(st, s, a, b, |s|);
      assert st[|s| - 1] == s[|s| - 1] && st[|s|] == t[0];
    } else {
      CrossCountJoin(s, t, a, b, n - 1);
      assert st[|s| + n - 2] == t[n - 2] && st[|s| + n - 1] == t[n - 1];
    }
  }

  /** Closing p + q counts the edges of p and of q and the two edges joining them. */
  lemma CrossCountClosed(p: seq<Vertex>, q: seq<Vertex>, a: Vertex, b: Vertex)
    requires |p| >= 1 && |q| >= 1
    ensures CrossCount(p + q + [p[0]], a, b, |p| + |q| + 1)
         == CrossCount(p, a, b, |p|) + CrossCount(q, a, b, |q|)
            + Crossed(p[|p| - 1], q[0], a, b) + Crossed(q[|q| - 1], p[0], a, b)
  {
    var tail := q + [p[0]];
    var cp, cq := CrossCount(p, a, b, |p|), CrossCount(q, a, b, |q|);
    var into, back := Crossed(p[|p| - 1], q[0], a, b), Crossed(q[|q| - 1], p[0], a, b);
    CrossCountJoin(q, [p[0]], a, b, 1);
    assert CrossCount([p[0]], a, b, 1) == 0;
    var ct := CrossCount(tail, a, b, |q| + 1);
    assert ct == cq + back;
    CrossCountJoin(p, tail, a, b, |q| + 1);
    assert tail[0] == q[0];
    assert CrossCount(p + tail, a, b, |p| + |q| + 1) == cp + into + ct;
    assert p + q + [p[0]] == p + tail;
  }

  /**
   * Starting a closed ring at another vertex of its open vertex list does
   * not change whether a point is inside: the ring has the same edges.
   */
  lemma InsideRotate(vs: seq<Vertex>, k: nat, v: Vertex)
    requires 1 <= k < |vs|
    ensures Inside(vs[k..] + vs[..k] + [vs[k]], v) == Inside(vs + [vs[0]], v)
  {
    var p, q, f := vs[..k], vs[k..], Far(v);
    assert vs + [vs[0]] == p + q + [p[0]] by {
      assert vs == p + q;
    }
    assert vs[k..] + vs[..k] + [vs[k]] == q + p + [q[0]];
    CrossCountClosed(p, q, v, f);
    CrossCountClosed(q, p, v, f);
    assert CrossCount(p + q + [p[0]], v, f, |vs| + 1) == CrossCount(q + p + [q[0]], v, f, |vs| + 1);
  }

  /** Moving two rings together does not change whether they overlap. */
  lemma OverlapsTranslate(p: seq<Vertex>, o: seq<Vertex>, dx: int, dy: int)
    ensures OverlapsRing(Translate(p, dx, dy), Translate(o, dx, dy)) == OverlapsRing(p, o)
  {
    var tp, to := Translate(p, dx, dy), Translate(o, dx, dy);
    forall i | 1 <= i < |o|
      ensures Inside(tp, to[i]) == Inside(p, o[i])
    {
      InsideTranslate(p, o[i], dx, dy);
    }
    forall i, j | 1 <= i < |p| && 1 <= j < |o|
      ensures EdgesMeet(tp, i, to, j) == EdgesMeet(p, i, o, j)
    {
      IntersectTranslate(p[i - 1], p[i], o[j - 1], o[j], dx, dy);
    }
    assert VertexInside(tp, to) == VertexInside(p, o);
    assert EdgesCross(tp, to) == EdgesCross(p, o);
  }

  // ---------------------------------------------------------------------
  // Bounding rectangles
  // ---------------------------------------------------------------------

  /** The empty-box seed that the first vertex overwrites. */
  const EMPTY_BOX: Rect := Rect(INT_MAX, INT_MAX, INT_MIN, INT_MIN)

  function Min(a: int, b: int): int { if a <= b then a else b }
  function Max(a: int, b: int): int { if a >= b then a else b }

  function Widen(r: Rect, v: Vertex): Rect {
    Rect(Min(r.xmin, v.x), Min(r.ymin, v.y), Max(r.xmax, v.x), Max(r.ymax, v.y))
  }

  /** The box of vertices 1 .. n-1 of vs, grown from EMPTY_BOX one vertex at a time. */
  function BoundsUpTo(vs: seq<Vertex>, n: nat): Rect
    requires 1 <= n <= |vs|
  {
    if n == 1 then EMPTY_BOX else Widen(BoundsUpTo(vs, n - 1), vs[n - 1])
  }

  /**
   * The box of a ring; vertex 0 is skipped because the ring repeats it at
   * the end, so the box of a closed ring still holds vertex 0. Without a
   * vertex after vertex 0 the box is the empty seed.
   */
  function Bounds(vs: seq<Vertex>): (r: Rect)
    ensures |vs| < 2 ==> r == EMPTY_BOX
    ensures Closed(vs) ==> r.xmin <= vs[0].x <= r.xmax && r.ymin <= vs[0].y <= r.ymax
  {
    if |vs| == 0 then EMPTY_BOX else BoundsUpTo(vs, |vs|)
  }

  /** The box holds every vertex 1 .. n-1, and each of its four sides is attained by one of them. */
  predicate Encloses(vs: seq<Vertex>, n: nat, r: Rect)
    requires n <= |vs|
  {
    && (forall i :: 1 <= i < n ==> r.xmin <= vs[i].x <= r.xmax && r.ymin <= vs[i].y <= r.ymax)
    && (exists i :: 1 <= i < n && vs[i].x == r.xmin)
    && (exists i :: 1 <= i < n && vs[i].x == r.xmax)
    && (exists i :: 1 <= i < n && vs[i].y == r.ymin)
    && (exists i :: 1 <= i < n && vs[i].y == r.ymax)
  }

  lemma {:induction false} BoundsUpToEncloses(vs: seq<Vertex>, n: nat)
    requires InRange(vs) && 2 <= n <= |vs|
    ensures Encloses(vs, n, BoundsUpTo(vs, n))
  {
    if n > 2 {
      BoundsUpToEncloses(vs, n - 1);
    }
  }

  /** For a ring of at least two vertices in 32-bit range, Bounds is the tight box of vertices 1 .. |vs|-1. */
  lemma BoundsEnclose(vs: seq<Vertex>)
    requires InRange(vs) && |vs| >= 2
    ensures Encloses(vs, |vs|, Bounds(vs))
  {
    BoundsUpToEncloses(vs, |vs|);
  }

  function ShiftRect(r: Rect, dx: int, dy: int): Rect {
    Rect(r.xmin + dx, r.ymin + dy, r.xmax + dx, r.ymax + dy)
  }

  lemma {:induction false} BoundsUpToTranslate(vs: seq<Vertex>, n: nat, dx: int, dy: int)
    requires InRange(vs) && InRange(Translate(vs, dx, dy)) && 2 <= n <= |vs|
    ensures BoundsUpTo(Translate(vs, dx, dy), n) == ShiftRect(BoundsUpTo(vs, n), dx, dy)
  {
    if n > 2 {
      BoundsUpToTranslate(vs, n - 1, dx, dy);
    }
  }

  /** The box of a moved ring is the old box moved by the same amount. */
  lemma BoundsTranslate(vs: seq<Vertex>, dx: int, dy: int)
    requires InRange(vs) && InRange(Translate(vs, dx, dy)) && |vs| >= 2
    ensures Bounds(Translate(vs, dx, dy)) == ShiftRect(Bounds(vs), dx, dy)
  {
    BoundsUpToTranslate(vs, |vs|, dx, dy);
  }

  // ---------------------------------------------------------------------
  // Text form: the coordinates of vertices 1 .. |vs|-1, flattened
  // ---------------------------------------------------------------------

  /** Two coordinates per vertex. */
  function Coords(vs: seq<Vertex>): (r: seq<int>)
    ensures |r| == 2 * |vs|
  {
    if vs == [] then [] else Coords(vs[..|vs| - 1]) + [vs[|vs| - 1].x, vs[|vs| - 1].y]
  }

  /** The flattened list holds x then y of each vertex in order. */
  lemma {:induction false} CoordsAt(vs: seq<Vertex>)
    ensures |Coords(vs)| == 2 * |vs|
    ensures forall k :: 0 <= k < |vs| ==> Coords(vs)[2 * k] == vs[k].x && Coords(vs)[2 * k + 1] == vs[k].y
  {
    if vs != [] {
      CoordsAt(vs[..|vs| - 1]);
    }
  }

  // ---------------------------------------------------------------------
  // The polygon object
  // ---------------------------------------------------------------------

  class Polygon {
    var vertices: seq<Vertex>

    constructor ()
      ensures vertices == []
    {
      vertices := [];
    }

    /** The copy constructor: adds the vertices of `copy` one by one. */
    constructor Copy(copy: Polygon)
      ensures vertices == copy.vertices
    {
      vertices := [];
      new;
      var i := 0;
      while i < |copy.vertices|
        invariant 0 <= i <= |copy.vertices|
        invariant vertices == copy.vertices[..i]
      {
        Add(copy.vertices[i].x, copy.vertices[i].y);
        i := i + 1;
      }
    }

    method Add(x: int, y: int)
      modifies this
      ensures vertices == old(vertices) + [Vertex(x, y)]
    {
      vertices := vertices + [Vertex(x, y)];
    }

    /** Closes the ring by repeating its first vertex. */
    method Finish()
      requires |vertices| > 0
      modifies this
      ensures vertices == old(vertices) + [old(vertices)[0]]
      ensures Closed(vertices)
    {
      vertices := vertices + [vertices[0]];
    }

    /** Ray-parity containment: counts the edges crossed by the ray from v. */
    method IsInside(v: Vertex) returns (r: bool)
      ensures r == Inside(vertices, v)
    {
      var windingNumber := 0;
      var inf := Far(v);
      var i := 1;
      while i < |vertices|
        invariant 1 <= i <= |vertices| || |vertices| == 0
        invariant windingNumber == CrossCount(vertices, v, inf, if |vertices| == 0 then 0 else i)
      {
        var q1 := vertices[i - 1];
        var q2 := vertices[i];
        if Intersect(v, inf, q1, q2) {
          windingNumber := windingNumber + 1;
        }
        i := i + 1;
      }
      r := windingNumber % 2 == 1;
    }

    /**
     * First tests vertices 1 .. of `other` for containment, then every
     * pair of edges for a crossing.
     */
    method Overlaps(other: Polygon) returns (r: bool)
      ensures r == OverlapsRing(vertices, other.vertices)
    {
      var i := 1;
      while i < |other.vertices|
        invariant 1 <= i
        invariant forall k :: 1 <= k < i && k < |other.vertices| ==> !Inside(vertices, other.vertices[k])
      {
        var inside := IsInside(other.vertices[i]);
        if inside {
          return true;
        }
        i := i + 1;
      }
      assert !VertexInside(vertices, other.vertices);
      i := 1;
      while i < |vertices|
        invariant 1 <= i
        invariant forall k, j :: 1 <= k < i && k < |vertices| && 1 <= j < |other.vertices|
                    ==> !EdgesMeet(vertices, k, other.vertices, j)
      {
        var p1 := vertices[i - 1];
        var p2 := vertices[i];
        var j := 1;
        while j < |other.vertices|
          invariant 1 <= j
          invariant forall l :: 1 <= l < j && l < |other.vertices| ==> !EdgesMeet(vertices, i, other.vertices, l)
        {
          var q1 := other.vertices[j - 1];
          var q2 := other.vertices[j];
          if Intersect(p1, p2, q1, q2) {
            assert EdgesMeet(vertices, i, other.vertices, j);
            return true;
          }
          j := j + 1;
        }
        i := i + 1;
      }
      return false;
    }

    /** Translates every vertex by (x, y). */
    method Move(x: int, y: int)
      modifies this
      ensures vertices == Translate(old(vertices), x, y)
    {
      var i := 0;
      while i < |vertices|
        invariant 0 <= i <= |vertices|
        invariant |vertices| == |old(vertices)|
        invariant forall k :: 0 <= k < i ==> vertices[k] == Shift(old(vertices)[k], x, y)
        invariant forall k :: i <= k < |vertices| ==> vertices[k] == old(vertices)[k]
      {
        vertices := vertices[i := Vertex(vertices[i].x + x, vertices[i].y + y)];
        i := i + 1;
      }
    }

    /** The bounding box of vertices 1 .. |vertices|-1, widened one vertex at a time. */
    method BRect() returns (bbox: Rect)
      ensures bbox == Bounds(vertices)
    {
      bbox := EMPTY_BOX;
      var i := 1;
      while i < |vertices|
        invariant 1 <= i <= |vertices| || |vertices| == 0
        invariant bbox == if |vertices| == 0 then EMPTY_BOX else BoundsUpTo(vertices, i)
      {
        bbox := Rect(Min(bbox.xmin, vertices[i].x), Min(bbox.ymin, vertices[i].y),
                     Max(bbox.xmax, vertices[i].x), Max(bbox.ymax, vertices[i].y));
        i := i + 1;
      }
    }

    /** The coordinates of vertices 1 .. |vertices|-1, x then y, as the output rows print them. */
    method ToString() returns (output: seq<int>)
      requires |vertices| >= 2
      ensures output == Coords(vertices[1..])
    {
      output := [vertices[1].x, vertices[1].y];
      assert vertices[1..2] == [vertices[1]];
      assert Coords(vertices[1..2]) == Coords([]) + [vertices[1].x, vertices[1].y];
      var i := 2;
      while i < |vertices|
        invariant 2 <= i <= |vertices|
        invariant output == Coords(vertices[1..i])
      {
        assert vertices[1..i + 1][..i - 1] == vertices[1..i];
        output := output + [vertices[i].x, vertices[i].y];
        i := i + 1;
      }
      assert vertices[1..i] == vertices[1..];
    }
  }

  // ---------------------------------------------------------------------
  // Nodes and transistors
  // ---------------------------------------------------------------------

  /**
   * One conductive shape: its electrical id (0 = unassigned), pull-up mark
   * ('-' or '+'), layer tag, ring and cached bounding box.
   */
  datatype Node = Node(id: int, pullup: char, layer: int, poly: seq<Vertex>, bbox: Rect)

  /** A transistor outline with its gate and terminal ids. */
  datatype Transistor = Transistor(shape: Node, gate: Option<int>, c1: int, c2: int)

  /** The two boxes are apart on the x axis or on the y axis. */
  predicate BoxesApart(a: Rect, b: Rect) {
    a.xmin > b.xmax || b.xmin > a.xmax || a.ymin > b.ymax || b.ymin > a.ymax
  }

  /** The box pre-test does not depend on which node asks. */
  lemma BoxesApartSymmetric(a: Rect, b: Rect)
    ensures BoxesApart(a, b) == BoxesApart(b, a)
  {
  }

  /**
   * Node a collides with node b: their boxes are not apart and a's ring
   * overlaps b's (a is the reference shape, b the probe).
   */
  function Collide(a: Node, b: Node): (r: bool)
    ensures BoxesApart(a.bbox, b.bbox) ==> !r
    ensures BoxesApart(b.bbox, a.bbox) ==> !r
    ensures r ==> OverlapsRing(a.poly, b.poly)
    ensures !BoxesApart(a.bbox, b.bbox) ==> (r <==> OverlapsRing(a.poly, b.poly))
  {
    !BoxesApart(a.bbox, b.bbox) && OverlapsRing(a.poly, b.poly)
  }

  /** Moving both nodes' rings and boxes by one vector does not change whether they collide. */
  lemma CollideTranslate(a: Node, b: Node, dx: int, dy: int)
    ensures Collide(a.(poly := Translate(a.poly, dx, dy), bbox := ShiftRect(a.bbox, dx, dy)),
                    b.(poly := Translate(b.poly, dx, dy), bbox := ShiftRect(b.bbox, dx, dy)))
         == Collide(a, b)
  {
    OverlapsTranslate(a.poly, b.poly, dx, dy);
  }
}
