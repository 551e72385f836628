/**
 * How the vectorizer walks the outline of a lit region. The 5 x 5 window
 * around a pixel, read row by row with the centre left out, gives a 24-bit
 * mask; the rules map a mask to the direction the outline leaves the pixel
 * in. A corner is a pixel whose rule differs from the direction the walk
 * arrived in; from a corner the walk goes straight on in the rule's
 * direction, one pixel at a time, until the next corner. An outline is the
 * chain of corners from a starting corner back to itself.
 */
module Corners {
  import opened Wrappers
  import opened Bits
  import opened Raster
  import opened RuleFile

  /** The number of cells of the window. */
  const CELLS: nat := 25

  /** The index of the centre cell of the window, which gives no bit. */
  const CENTRE: nat := 12

  /** Cell `k` of the window around `(x, y)`, counted row by row from `(x - 2, y - 2)`: 1 when lit. */
  function CellBit(p: Plane, x: int, y: int, k: nat): (b: nat)
    requires p.Valid() && k < CELLS
    ensures b < 2
  {
    if At(p, x + k % 5 - 2, y + k / 5 - 2) != 0 then 1 else 0
  }

  /** The mask after the first `k` cells: each cell but the centre shifts in one bit. */
  function MaskUpTo(p: Plane, x: int, y: int, k: nat): nat
    requires p.Valid() && k <= CELLS
  {
    if k == 0 then 0
    else if k - 1 == CENTRE then MaskUpTo(p, x, y, k - 1)
    else 2 * MaskUpTo(p, x, y, k - 1) + CellBit(p, x, y, k - 1)
  }

  /** The neighbourhood mask of `(x, y)`. */
  function Neighbourhood(p: Plane, x: int, y: int): nat
    requires p.Valid()
  {
    MaskUpTo(p, x, y, CELLS)
  }

  /** One more cell of the window: the centre adds nothing, any other cell shifts in its bit. */
  lemma MaskUpToNext(p: Plane, x: int, y: int, k: nat, dx: nat, dy: nat)
    requires p.Valid() && dx < 5 && dy < 5 && k == 5 * dy + dx
    ensures MaskUpTo(p, x, y, k + 1)
            == if dx == 2 && dy == 2 then MaskUpTo(p, x, y, k)
               else 2 * MaskUpTo(p, x, y, k) + (if At(p, x + dx - 2, y + dy - 2) != 0 then 1 else 0)
  {
    assert k % 5 == dx && k / 5 == dy;
  }

  /** The number of bits the first `k` cells give. */
  function Slots(k: nat): nat {
    if k <= CENTRE then k else k - 1
  }

  /** The mask after `k` cells has no more bits than the cells gave. */
  lemma {:induction false} MaskUpToBound(p: Plane, x: int, y: int, k: nat)
    requires p.Valid() && k <= CELLS
    ensures MaskUpTo(p, x, y, k) < Pow2(Slots(k))
    decreases k
  {
    if k > 0 {
      MaskUpToBound(p, x, y, k - 1);
    }
  }

  /** Dividing by `2 m` is halving, then dividing by `m`. */
  lemma HalveFirst(y: nat, m: nat)
    requires m > 0
    ensures y / (2 * m) == (y / 2) / m
  {
    var h := y / 2;
    assert y == 2 * h + y % 2;
    assert h == (h / m) * m + h % m;
    assert y == (h / m) * (2 * m) + (2 * (h % m) + y % 2);
    DivModUnique(y, 2 * m, h / m, 2 * (h % m) + y % 2);
  }

  /** Shifting in a bit moves every earlier bit up by one place. */
  lemma ShiftedBit(m: nat, b: nat, e: nat)
    requires b < 2
    ensures ((2 * m + b) / Pow2(e + 1)) % 2 == (m / Pow2(e)) % 2
    ensures ((2 * m + b) / Pow2(0)) % 2 == b
  {
    DivModUnique(2 * m + b, 2, m, b);
    HalveFirst(2 * m + b, Pow2(e));
    DivModUnique(2 * m + b, 1, 2 * m + b, 0);
  }

  /**
   * Cell `j` of the first `k` is the bit of the partial mask at the place
   * that the later cells pushed it up to.
   */
  lemma {:induction false} MaskUpToBit(p: Plane, x: int, y: int, k: nat, j: nat)
    requires p.Valid() && j < k <= CELLS && j != CENTRE
    ensures Slots(k) >= 1 + Slots(j)
    ensures (MaskUpTo(p, x, y, k) / Pow2(Slots(k) - 1 - Slots(j))) % 2 == CellBit(p, x, y, j)
    decreases k
  {
    var m := MaskUpTo(p, x, y, k - 1);
    if k - 1 == CENTRE {
      MaskUpToBit(p, x, y, k - 1, j);
      assert Slots(k) == Slots(k - 1);
    } else {
      var b := CellBit(p, x, y, k - 1);
      assert MaskUpTo(p, x, y, k) == 2 * m + b;
      assert Slots(k) == Slots(k - 1) + 1;
      if j == k - 1 {
        assert Slots(k) - 1 - Slots(j) == 0;
        ShiftedBit(m, b, 0);
      } else {
        MaskUpToBit(p, x, y, k - 1, j);
        var e := Slots(k - 1) - 1 - Slots(j);
        assert Slots(k) - 1 - Slots(j) == e + 1;
        ShiftedBit(m, b, e);
      }
    }
  }

  /**
   * The mask has 24 bits, one per cell of the window but the centre, the
   * first cell in bit 23: the order in which the mask is printed.
   */
  lemma MaskBits(p: Plane, x: int, y: int, j: nat)
    requires p.Valid() && j < CELLS && j != CENTRE
    ensures Neighbourhood(p, x, y) < MASK_LIMIT
    ensures (Neighbourhood(p, x, y) / Pow2(23 - Slots(j))) % 2 == CellBit(p, x, y, j)
  {
    MaskUpToBound(p, x, y, CELLS);
    Pow2Add(16, 8);
    Pow2Add(8, 8);
    assert Pow2(8) == 256;
    MaskUpToBit(p, x, y, CELLS, j);
  }

  /**
   * The rule lookup for a mask, given the direction the walk is going in:
   * a known mask whose rule is that direction is no corner; a known mask
   * with another rule is a corner to turn at; an unknown mask stops the
   * walk with no direction.
   */
  function Classify(rules: Rules, mask: nat, dir: Dir): (r: (bool, Dir))
    ensures r.0 <==> mask in rules && rules[mask] != dir
    ensures mask in rules ==> r.1 == rules[mask]
    ensures mask !in rules ==> r.1 == DIR_NONE
  {
    if mask in rules then
      if rules[mask] == dir then (false, dir) else (true, rules[mask])
    else (false, DIR_NONE)
  }

  /** The move of one step in direction `d`: east, south-east, ..., north-east; no move for any other code. */
  function Delta(d: Dir): (r: (int, int))
    ensures d < 8 ==> r != (0, 0) && -1 <= r.0 <= 1 && -1 <= r.1 <= 1
    ensures d >= 8 ==> r == (0, 0)
  {
    if d == 0 then (1, 0)
    else if d == 1 then (1, 1)
    else if d == 2 then (0, 1)
    else if d == 3 then (-1, 1)
    else if d == 4 then (-1, 0)
    else if d == 5 then (-1, -1)
    else if d == 6 then (0, -1)
    else if d == 7 then (1, -1)
    else (0, 0)
  }

  /** The pixel next to `c` in direction `d`; `c` itself for a code that does not move. */
  function Step(c: Coord, d: Dir): (n: Coord)
    ensures d < 8 ==> n != c && -1 <= n.x - c.x <= 1 && -1 <= n.y - c.y <= 1
    ensures d >= 8 ==> n == c
  {
    Coord(c.x + Delta(d).0, c.y + Delta(d).1)
  }

  /**
   * Each of the eight directions moves to one of the eight neighbours, no
   * two to the same one, and the opposite direction comes back; other codes
   * do not move.
   */
  lemma StepNeighbour(c: Coord, d: Dir, e: Dir)
    ensures d < 8 ==> Step(c, d) != c && -1 <= Step(c, d).x - c.x <= 1 && -1 <= Step(c, d).y - c.y <= 1
    ensures d < 8 ==> Step(Step(c, d), (d + 4) % 8) == c
    ensures d < 8 && e < 8 && d != e ==> Step(c, d) != Step(c, e)
    ensures d >= 8 ==> Step(c, d) == c
  {
  }

  /** Only directions up to "none" occur in the rules. */
  predicate Steady(rules: Rules) {
    forall m :: m in rules ==> rules[m] <= DIR_NONE
  }

  /** How many more steps in direction `d` can stay inside the plane, counted on both axes. */
  function Room(p: Plane, c: Coord, d: Dir): int {
    var (dx, dy) := Delta(d);
    (if dx > 0 then p.width - c.x else if dx < 0 then c.x + 1 else 0)
      + (if dy > 0 then p.height - c.y else if dy < 0 then c.y + 1 else 0)
  }

  /**
   * Walking on from `c` in direction `d`: the next pixel must be lit; it is
   * the corner sought if its rule turns, the walk goes on if its rule is `d`,
   * and it stops if its mask has no rule.
   */
  function Walk(p: Plane, rules: Rules, c: Coord, d: Dir): (r: Option<Coord>)
    requires p.Valid() && d < 8
    ensures r.Some? ==> Lit(p, r.value)
    decreases Room(p, c, d)
  {
    var n := Step(c, d);
    if !Lit(p, n) then None
    else
      var (corner, turn) := Classify(rules, Neighbourhood(p, n.x, n.y), d);
      if corner then Some(n)
      else if turn == DIR_NONE then None
      else Walk(p, rules, n, d)
  }

  /** One step of a walk: a lit next pixel leaves less room, and the walk goes on from it exactly when its rule keeps the direction. */
  lemma WalkStep(p: Plane, rules: Rules, c: Coord, d: Dir)
    requires p.Valid() && d < 8
    ensures Lit(p, Step(c, d)) ==> 0 <= Room(p, Step(c, d), d) < Room(p, c, d)
    ensures var n := Step(c, d);
            var (corner, turn) := Classify(rules, Neighbourhood(p, n.x, n.y), d);
            Walk(p, rules, c, d)
            == if !Lit(p, n) then None else if corner then Some(n) else if turn == DIR_NONE then None else Walk(p, rules, n, d)
  {
  }

  /** `c` is a corner for a walk that arrives with no direction. */
  predicate IsStart(p: Plane, rules: Rules, c: Coord)
    requires p.Valid()
  {
    Classify(rules, Neighbourhood(p, c.x, c.y), DIR_NONE).0
  }

  /** The next corner of the outline after corner `c`, if the walk reaches one. */
  function NextCorner(p: Plane, rules: Rules, c: Coord): Option<Coord>
    requires p.Valid() && Steady(rules)
  {
    var (corner, d) := Classify(rules, Neighbourhood(p, c.x, c.y), DIR_NONE);
    if !corner then None else Walk(p, rules, c, d)
  }

  /** The pixel `k` steps from `c` in direction `d`. */
  function Ray(c: Coord, d: Dir, k: nat): Coord {
    if k == 0 then c else Step(Ray(c, d, k - 1), d)
  }

  /** Pixel `c` is lit and its rule keeps the walk going in direction `d`. */
  predicate Straight(p: Plane, rules: Rules, c: Coord, d: Dir)
    requires p.Valid()
  {
    Lit(p, c) && Neighbourhood(p, c.x, c.y) in rules && rules[Neighbourhood(p, c.x, c.y)] == d
  }

  /** The first `k - 1` pixels of the ray from `c` keep the walk going straight. */
  predicate StraightTo(p: Plane, rules: Rules, c: Coord, d: Dir, k: nat)
    requires p.Valid()
  {
    forall t :: 1 <= t < k ==> Straight(p, rules, Ray(c, d, t), d)
  }

  /** The walk ends `k` steps out: at a corner when `found`, else at a dark pixel or a mask with no rule. */
  predicate EndsAt(p: Plane, rules: Rules, c: Coord, d: Dir, k: nat, found: bool)
    requires p.Valid()
  {
    var q := Ray(c, d, k);
    && k >= 1
    && StraightTo(p, rules, c, d, k)
    && (found <==> Lit(p, q) && Neighbourhood(p, q.x, q.y) in rules && rules[Neighbourhood(p, q.x, q.y)] != d)
  }

  /**
   * The walk stops at the first pixel of the ray that does not keep it
   * straight: it finds that pixel when it is a lit corner, and nothing when
   * it is dark or has no rule.
   */
  lemma {:induction false} WalkEnds(p: Plane, rules: Rules, c: Coord, d: Dir)
    requires p.Valid() && d < 8
    ensures Walk(p, rules, c, d).Some? ==> EndsAt(p, rules, c, d, WalkLength(p, rules, c, d), true)
                                           && Walk(p, rules, c, d).value == Ray(c, d, WalkLength(p, rules, c, d))
    ensures Walk(p, rules, c, d).None? ==> EndsAt(p, rules, c, d, WalkLength(p, rules, c, d), false)
    decreases Room(p, c, d)
  {
    var n := Step(c, d);
    if Straight(p, rules, n, d) {
      WalkGoesOn(p, rules, c, d);
      WalkEnds(p, rules, n, d);
      WalkEndsOn(p, rules, c, d, Walk(p, rules, n, d), WalkLength(p, rules, n, d));
    } else {
      WalkStops(p, rules, c, d);
    }
  }

  /** What a walk from `c` in direction `d` finds: a corner at its end, or nothing at a dark or ruleless end. */
  predicate WalkEnding(p: Plane, rules: Rules, c: Coord, d: Dir)
    requires p.Valid() && d < 8
  {
    var w, k := Walk(p, rules, c, d), WalkLength(p, rules, c, d);
    EndsAt(p, rules, c, d, k, w.Some?) && (w.Some? ==> w.value == Ray(c, d, k))
  }

  /** An ending `k` steps past a straight pixel is an ending `k + 1` steps out, at the same pixel. */
  lemma WalkEndsOn(p: Plane, rules: Rules, c: Coord, d: Dir, w: Option<Coord>, k: nat)
    requires p.Valid() && Straight(p, rules, Step(c, d), d)
    requires EndsAt(p, rules, Step(c, d), d, k, w.Some?) && (w.Some? ==> w.value == Ray(Step(c, d), d, k))
    ensures EndsAt(p, rules, c, d, k + 1, w.Some?) && (w.Some? ==> w.value == Ray(c, d, k + 1))
  {
    EndsFurther(p, rules, c, d, k, w.Some?);
    RayShift(c, d, k);
  }

  /** Past a straight pixel the walk and its length are those from that pixel, one step more. */
  lemma WalkGoesOn(p: Plane, rules: Rules, c: Coord, d: Dir)
    requires p.Valid() && d < 8 && Straight(p, rules, Step(c, d), d)
    ensures 0 <= Room(p, Step(c, d), d) < Room(p, c, d)
    ensures Walk(p, rules, c, d) == Walk(p, rules, Step(c, d), d)
    ensures WalkLength(p, rules, c, d) == 1 + WalkLength(p, rules, Step(c, d), d)
  {
    WalkStep(p, rules, c, d);
  }

  /** Before any other pixel the walk stops one step out, finding that pixel exactly when it is a lit corner. */
  lemma WalkStops(p: Plane, rules: Rules, c: Coord, d: Dir)
    requires p.Valid() && d < 8 && !Straight(p, rules, Step(c, d), d)
    ensures WalkLength(p, rules, c, d) == 1
    ensures Walk(p, rules, c, d).Some? ==> Walk(p, rules, c, d).value == Ray(c, d, 1)
    ensures EndsAt(p, rules, c, d, 1, Walk(p, rules, c, d).Some?)
  {
    assert Ray(c, d, 1) == Step(c, d);
  }

  /** A walk that ends `k` steps past a straight pixel one step out ends `k + 1` steps out. */
  lemma EndsFurther(p: Plane, rules: Rules, c: Coord, d: Dir, k: nat, found: bool)
    requires p.Valid() && Straight(p, rules, Step(c, d), d) && EndsAt(p, rules, Step(c, d), d, k, found)
    ensures EndsAt(p, rules, c, d, k + 1, found)
  {
    RayShift(c, d, k);
    forall t | 1 <= t < k + 1
      ensures Straight(p, rules, Ray(c, d, t), d)
    {
      if t > 1 {
        RayShift(c, d, t - 1);
      }
    }
  }

  /** The number of steps the walk takes. */
  function WalkLength(p: Plane, rules: Rules, c: Coord, d: Dir): (k: nat)
    requires p.Valid() && d < 8
    ensures k >= 1
    decreases Room(p, c, d)
  {
    var n := Step(c, d);
    if !Lit(p, n) then 1
    else
      var (corner, turn) := Classify(rules, Neighbourhood(p, n.x, n.y), d);
      if corner || turn == DIR_NONE then 1
      else 1 + WalkLength(p, rules, n, d)
  }

  /** The ray from one step out is the ray from `c`, one step further. */
  lemma {:induction false} RayShift(c: Coord, d: Dir, k: nat)
    ensures Ray(Step(c, d), d, k) == Ray(c, d, k + 1)
    decreases k
  {
    if k > 0 {
      RayShift(c, d, k - 1);
    }
  }

  /** How tracing an outline ended: back at its start, stopped by a failed walk, or out of fuel. */
  datatype Ending = Closed | Broken | Unfinished

  /** The line that ends an outline. */
  const SENTINEL: Coord := Coord(-1, -1)

  /**
   * Following the outline from corner `c` back to `origin`, visiting at most
   * `fuel` corners: each corner visited is emitted, and returning to the
   * origin emits the sentinel.
   */
  function Chase(p: Plane, rules: Rules, origin: Coord, c: Coord, fuel: nat): (r: (seq<Coord>, Ending))
    requires p.Valid() && Steady(rules)
    ensures r.0 == [] <==> fuel == 0
    ensures r.0 != [] ==> r.0[0] == c
    ensures |r.0| <= fuel + 1
    ensures r.1 == Closed ==> |r.0| >= 2 && r.0[|r.0| - 1] == SENTINEL
    decreases fuel
  {
    if fuel == 0 then ([], Unfinished)
    else
      match NextCorner(p, rules, c)
      case None => ([c], Broken)
      case Some(n) =>
        if n == origin then ([c, SENTINEL], Closed)
        else
          var (rest, e) := Chase(p, rules, origin, n, fuel - 1);
          ([c] + rest, e)
  }

  /** One round of a chase with fuel left, after lines `pre` already written. */
  lemma ChaseNext(p: Plane, rules: Rules, origin: Coord, c: Coord, fuel: nat, pre: seq<Coord>)
    requires p.Valid() && Steady(rules) && fuel > 0
    ensures NextCorner(p, rules, c).None? ==> pre + Chase(p, rules, origin, c, fuel).0 == pre + [c] && Chase(p, rules, origin, c, fuel).1 == Broken
    ensures NextCorner(p, rules, c) == Some(origin)
            ==> pre + Chase(p, rules, origin, c, fuel).0 == pre + [c] + [SENTINEL] && Chase(p, rules, origin, c, fuel).1 == Closed
    ensures NextCorner(p, rules, c).Some? && NextCorner(p, rules, c).value != origin
            ==> var n := NextCorner(p, rules, c).value;
                && pre + Chase(p, rules, origin, c, fuel).0 == (pre + [c]) + Chase(p, rules, origin, n, fuel - 1).0
                && Chase(p, rules, origin, c, fuel).1 == Chase(p, rules, origin, n, fuel - 1).1
  {
    if NextCorner(p, rules, c) == Some(origin) {
      assert pre + [c, SENTINEL] == pre + [c] + [SENTINEL];
    } else if NextCorner(p, rules, c).Some? {
      var n := NextCorner(p, rules, c).value;
      var rest := Chase(p, rules, origin, n, fuel - 1).0;
      assert pre + ([c] + rest) == (pre + [c]) + rest;
    }
  }

  /**
   * The lines written for the outline starting at `c`, and how it ended:
   * nothing unless `c` is a corner, and then `c` first, at most one line per
   * corner visited and the sentinel last when the outline closes.
   */
  function TraceLines(p: Plane, rules: Rules, c: Coord, fuel: nat): (r: (seq<Coord>, Ending))
    requires p.Valid() && Steady(rules)
    ensures r.0 != [] ==> IsStart(p, rules, c) && r.0[0] == c
    ensures |r.0| <= fuel + 1
    ensures r.1 == Closed ==> |r.0| >= 2 && r.0[|r.0| - 1] == SENTINEL
  {
    if !IsStart(p, rules, c) then ([], Broken) else Chase(p, rules, c, c, fuel)
  }

  /** Tracing from `origin` has written `lines` and goes on from corner `c` with `left` rounds of fuel. */
  ghost predicate Tracing(p: Plane, rules: Rules, origin: Coord, fuel: nat, lines: seq<Coord>, c: Coord, left: nat)
    requires p.Valid() && Steady(rules)
  {
    TraceLines(p, rules, origin, fuel) == After(lines, Chase(p, rules, origin, c, left))
  }

  /** The lines and ending of a trace that had written `lines` before the rest `r`. */
  function After(lines: seq<Coord>, r: (seq<Coord>, Ending)): (seq<Coord>, Ending) {
    (lines + r.0, r.1)
  }

  /** A trace from a start corner begins with nothing written, at the start, with all its fuel. */
  lemma TraceBegin(p: Plane, rules: Rules, origin: Coord, fuel: nat)
    requires p.Valid() && Steady(rules) && IsStart(p, rules, origin)
    ensures Tracing(p, rules, origin, fuel, [], origin, fuel)
  {
    assert [] + Chase(p, rules, origin, origin, fuel).0 == Chase(p, rules, origin, origin, fuel).0;
  }

  /** A trace out of fuel ends unfinished with what it has written. */
  lemma TraceOut(p: Plane, rules: Rules, origin: Coord, fuel: nat, lines: seq<Coord>, c: Coord)
    requires p.Valid() && Steady(rules) && Tracing(p, rules, origin, fuel, lines, c, 0)
    ensures TraceLines(p, rules, origin, fuel) == (lines, Unfinished)
  {
    assert lines + [] == lines;
  }

  /**
   * One round of a trace: write the corner, then stop if no corner follows,
   * close if the next corner is the origin, and go on from it otherwise.
   */
  lemma TraceAdvance(p: Plane, rules: Rules, origin: Coord, fuel: nat, lines: seq<Coord>, c: Coord, left: nat)
    requires p.Valid() && Steady(rules) && left > 0 && Tracing(p, rules, origin, fuel, lines, c, left)
    ensures NextCorner(p, rules, c).None? ==> TraceLines(p, rules, origin, fuel) == (lines + [c], Broken)
    ensures NextCorner(p, rules, c) == Some(origin) ==> TraceLines(p, rules, origin, fuel) == (lines + [c] + [SENTINEL], Closed)
    ensures NextCorner(p, rules, c).Some? && NextCorner(p, rules, c).value != origin
            ==> Tracing(p, rules, origin, fuel, lines + [c], NextCorner(p, rules, c).value, left - 1)
  {
    ChaseNext(p, rules, origin, c, left, lines);
  }

  /**
   * `pts` are corners, each followed by the next corner after it, which is
   * never `origin`; the last is followed by `origin`.
   */
  predicate Linked(p: Plane, rules: Rules, pts: seq<Coord>, origin: Coord)
    requires p.Valid() && Steady(rules)
    decreases |pts|
  {
    && |pts| >= 1
    && if |pts| == 1 then NextCorner(p, rules, pts[0]) == Some(origin)
       else NextCorner(p, rules, pts[0]) == Some(pts[1]) && pts[1] != origin && Linked(p, rules, pts[1..], origin)
  }

  /** A chase that closes emits a chain of corners leading back to the origin, then the sentinel. */
  lemma {:induction false} ChaseClosed(p: Plane, rules: Rules, origin: Coord, c: Coord, fuel: nat)
    requires p.Valid() && Steady(rules)
    requires Chase(p, rules, origin, c, fuel).1 == Closed
    ensures var pts := Chase(p, rules, origin, c, fuel).0;
            && |pts| >= 2 && pts[0] == c && pts[|pts| - 1] == SENTINEL
            && Linked(p, rules, pts[..|pts| - 1], origin)
    decreases fuel
  {
    var n := NextCorner(p, rules, c).value;
    if n != origin {
      ChaseClosed(p, rules, origin, n, fuel - 1);
      var rest := Chase(p, rules, origin, n, fuel - 1).0;
      var chain := [c] + rest[..|rest| - 1];
      assert chain[1..] == rest[..|rest| - 1];
      assert ([c] + rest)[..|rest|] == chain;
    } else {
      assert Linked(p, rules, [c], origin);
    }
  }

  /** Every corner of a chain but the last is followed by the next one, and the origin appears only first. */
  lemma {:induction false} LinkedAll(p: Plane, rules: Rules, pts: seq<Coord>, origin: Coord)
    requires p.Valid() && Steady(rules) && Linked(p, rules, pts, origin)
    ensures forall i :: 0 <= i < |pts| - 1 ==> NextCorner(p, rules, pts[i]) == Some(pts[i + 1])
    ensures NextCorner(p, rules, pts[|pts| - 1]) == Some(origin)
    ensures forall i :: 1 <= i < |pts| ==> pts[i] != origin
    decreases |pts|
  {
    if |pts| > 1 {
      var tail := pts[1..];
      LinkedAll(p, rules, tail, origin);
      forall i | 1 <= i < |pts| - 1
        ensures NextCorner(p, rules, pts[i]) == Some(pts[i + 1])
      {
        assert pts[i] == tail[i - 1] && pts[i + 1] == tail[i];
      }
      assert pts[|pts| - 1] == tail[|tail| - 1];
      forall i | 2 <= i < |pts|
        ensures pts[i] != origin
      {
        assert pts[i] == tail[i - 1];
      }
    }
  }

  /**
   * A closed outline is a chain of corners from the start back to the
   * start, the start appearing once, followed by the sentinel.
   */
  lemma TraceClosed(p: Plane, rules: Rules, c: Coord, fuel: nat)
    requires p.Valid() && Steady(rules)
    requires TraceLines(p, rules, c, fuel).1 == Closed
    ensures var pts := TraceLines(p, rules, c, fuel).0;
            && |pts| >= 2 && pts[0] == c && pts[|pts| - 1] == SENTINEL
            && Linked(p, rules, pts[..|pts| - 1], c)
  {
    assert TraceLines(p, rules, c, fuel) == Chase(p, rules, c, c, fuel);
    ChaseClosed(p, rules, c, c, fuel);
  }

  /**
   * Scanning the plane row by row from `(px, py)`: each lit pixel met
   * starts an outline, whose lines are emitted; a closed outline's region is
   * erased before the scan goes on, and any other ending stops the scan.
   * The result is the lines, the plane left, and whether the scan finished.
   */
  ghost function Scan(p: Plane, rules: Rules, fuel: nat, px: nat, py: nat): (r: (seq<Coord>, Plane, bool))
    requires p.Valid() && Steady(rules)
    ensures r.1.Valid() && r.1.width == p.width && r.1.height == p.height
    decreases p.height - py, p.width - px
  {
    if py >= p.height then ([], p, true)
    else if px >= p.width then Scan(p, rules, fuel, 0, py + 1)
    else if !Lit(p, Coord(px, py)) then Scan(p, rules, fuel, px + 1, py)
    else
      var (pts, e) := TraceLines(p, rules, Coord(px, py), fuel);
      if e != Closed then (pts, p, false)
      else
        var (rest, q, finished) := Scan(Erased(p, Coord(px, py)), rules, fuel, px + 1, py);
        (pts + rest, q, finished)
  }

  /** One pixel of a scan, after lines `pre` already written. */
  lemma ScanNext(p: Plane, rules: Rules, fuel: nat, px: nat, py: nat, pre: seq<Coord>)
    requires p.Valid() && Steady(rules)
    ensures py >= p.height ==> Scan(p, rules, fuel, px, py) == ([], p, true)
    ensures py < p.height && px >= p.width ==> Scan(p, rules, fuel, px, py) == Scan(p, rules, fuel, 0, py + 1)
    ensures py < p.height && px < p.width && !Lit(p, Coord(px, py)) ==> Scan(p, rules, fuel, px, py) == Scan(p, rules, fuel, px + 1, py)
    ensures py < p.height && px < p.width && Lit(p, Coord(px, py)) && TraceLines(p, rules, Coord(px, py), fuel).1 != Closed
            ==> Scan(p, rules, fuel, px, py) == (TraceLines(p, rules, Coord(px, py), fuel).0, p, false)
    ensures py < p.height && px < p.width && Lit(p, Coord(px, py)) && TraceLines(p, rules, Coord(px, py), fuel).1 == Closed
            ==> var q := Erased(p, Coord(px, py));
                && pre + Scan(p, rules, fuel, px, py).0 == (pre + TraceLines(p, rules, Coord(px, py), fuel).0) + Scan(q, rules, fuel, px + 1, py).0
                && Scan(p, rules, fuel, px, py).1 == Scan(q, rules, fuel, px + 1, py).1
                && Scan(p, rules, fuel, px, py).2 == Scan(q, rules, fuel, px + 1, py).2
  {
    if py < p.height && px < p.width && Lit(p, Coord(px, py)) && TraceLines(p, rules, Coord(px, py), fuel).1 == Closed {
      var q := Erased(p, Coord(px, py));
      var pts := TraceLines(p, rules, Coord(px, py), fuel).0;
      var rest := Scan(q, rules, fuel, px + 1, py).0;
      assert pre + (pts + rest) == (pre + pts) + rest;
    }
  }

  /**
   * A scan of all of `p0` has written `lines` and has got as far as pixel
   * `(px, py)` of plane `q`: what is left to scan of `q` gives the rest.
   */
  ghost predicate Scanning(p0: Plane, rules: Rules, fuel: nat, lines: seq<Coord>, q: Plane, px: nat, py: nat)
    requires p0.Valid() && q.Valid() && Steady(rules)
  {
    && Scan(p0, rules, fuel, 0, 0).0 == lines + Scan(q, rules, fuel, px, py).0
    && Scan(p0, rules, fuel, 0, 0).1 == Scan(q, rules, fuel, px, py).1
    && Scan(p0, rules, fuel, 0, 0).2 == Scan(q, rules, fuel, px, py).2
  }

  /** A scan begins at the first pixel with nothing written. */
  lemma ScanBegin(p: Plane, rules: Rules, fuel: nat)
    requires p.Valid() && Steady(rules)
    ensures Scanning(p, rules, fuel, [], p, 0, 0)
  {
    assert [] + Scan(p, rules, fuel, 0, 0).0 == Scan(p, rules, fuel, 0, 0).0;
  }

  /** A dark pixel is passed over. */
  lemma ScanSkip(p0: Plane, rules: Rules, fuel: nat, lines: seq<Coord>, q: Plane, px: nat, py: nat)
    requires p0.Valid() && q.Valid() && Steady(rules) && Scanning(p0, rules, fuel, lines, q, px, py)
    requires q.Inside(px, py) && !Lit(q, Coord(px, py))
    ensures Scanning(p0, rules, fuel, lines, q, px + 1, py)
  {
    ScanNext(q, rules, fuel, px, py, lines);
  }

  /** A lit pixel whose outline does not close ends the scan there, with its lines written. */
  lemma ScanStop(p0: Plane, rules: Rules, fuel: nat, lines: seq<Coord>, q: Plane, px: nat, py: nat)
    requires p0.Valid() && q.Valid() && Steady(rules) && Scanning(p0, rules, fuel, lines, q, px, py)
    requires q.Inside(px, py) && Lit(q, Coord(px, py)) && TraceLines(q, rules, Coord(px, py), fuel).1 != Closed
    ensures Scan(p0, rules, fuel, 0, 0) == (lines + TraceLines(q, rules, Coord(px, py), fuel).0, q, false)
  {
    ScanNext(q, rules, fuel, px, py, lines);
  }

  /** A lit pixel whose outline closes has its lines written and its region erased. */
  lemma ScanErase(p0: Plane, rules: Rules, fuel: nat, lines: seq<Coord>, q: Plane, px: nat, py: nat)
    requires p0.Valid() && q.Valid() && Steady(rules) && Scanning(p0, rules, fuel, lines, q, px, py)
    requires q.Inside(px, py) && Lit(q, Coord(px, py)) && TraceLines(q, rules, Coord(px, py), fuel).1 == Closed
    ensures Scanning(p0, rules, fuel, lines + TraceLines(q, rules, Coord(px, py), fuel).0, Erased(q, Coord(px, py)), px + 1, py)
  {
    ScanNext(q, rules, fuel, px, py, lines);
  }

  /** At the end of a row the scan goes on at the start of the next. */
  lemma ScanRowEnd(p0: Plane, rules: Rules, fuel: nat, lines: seq<Coord>, q: Plane, py: nat)
    requires p0.Valid() && q.Valid() && Steady(rules) && Scanning(p0, rules, fuel, lines, q, q.width, py)
    requires py < q.height
    ensures Scanning(p0, rules, fuel, lines, q, 0, py + 1)
  {
    ScanNext(q, rules, fuel, q.width, py, lines);
  }

  /** After the last row the scan has finished, leaving the plane it reached. */
  lemma ScanEnd(p0: Plane, rules: Rules, fuel: nat, lines: seq<Coord>, q: Plane)
    requires p0.Valid() && q.Valid() && Steady(rules) && Scanning(p0, rules, fuel, lines, q, 0, q.height)
    ensures Scan(p0, rules, fuel, 0, 0) == (lines, q, true)
  {
    ScanNext(q, rules, fuel, 0, q.height, lines);
    assert lines + [] == lines;
  }

  /** Every pixel before `(px, py)` in row order is dark. */
  predicate DarkBefore(p: Plane, px: int, py: int)
    requires p.Valid()
  {
    forall x, y :: 0 <= x < p.width && 0 <= y < p.height && (y < py || (y == py && x < px)) ==> At(p, x, y) == 0
  }

  /** A dark pixel extends the dark prefix by one. */
  lemma DarkPast(p: Plane, px: nat, py: nat)
    requires p.Valid() && DarkBefore(p, px, py) && !Lit(p, Coord(px, py))
    ensures DarkBefore(p, px + 1, py)
  {
  }

  /** A dark prefix that covers a whole row covers it up to the next row's start. */
  lemma DarkRow(p: Plane, px: nat, py: nat)
    requires p.Valid() && DarkBefore(p, px, py) && px >= p.width
    ensures DarkBefore(p, 0, py + 1)
  {
  }

  /** Erasing the region of a pixel at the end of a dark prefix extends the prefix past that pixel. */
  lemma DarkErased(p: Plane, px: nat, py: nat)
    requires p.Valid() && DarkBefore(p, px, py)
    ensures DarkBefore(Erased(p, Coord(px, py)), px + 1, py)
  {
    EraseDarkens(p, Coord(px, py));
  }

  /** A scan that finishes leaves no pixel lit. */
  lemma {:induction false} ScanClears(p: Plane, rules: Rules, fuel: nat, px: nat, py: nat)
    requires p.Valid() && Steady(rules) && DarkBefore(p, px, py)
    ensures Scan(p, rules, fuel, px, py).2 ==> DarkBefore(Scan(p, rules, fuel, px, py).1, p.width, p.height)
    decreases p.height - py, p.width - px
  {
    ScanNext(p, rules, fuel, px, py, []);
    if py >= p.height {
    } else if px >= p.width {
      DarkRow(p, px, py);
      ScanClears(p, rules, fuel, 0, py + 1);
    } else if !Lit(p, Coord(px, py)) {
      DarkPast(p, px, py);
      ScanClears(p, rules, fuel, px + 1, py);
    } else if TraceLines(p, rules, Coord(px, py), fuel).1 == Closed {
      DarkErased(p, px, py);
      ScanClears(Erased(p, Coord(px, py)), rules, fuel, px + 1, py);
    }
  }

  /** Scanning a whole plane that finishes leaves it blank. */
  lemma ScanBlank(p: Plane, rules: Rules, fuel: nat)
    requires p.Valid() && Steady(rules)
    ensures Scan(p, rules, fuel, 0, 0).2 ==> Scan(p, rules, fuel, 0, 0).1 == Blank(p.width, p.height)
  {
    ScanClears(p, rules, fuel, 0, 0);
    var q := Scan(p, rules, fuel, 0, 0).1;
    if Scan(p, rules, fuel, 0, 0).2 {
      SamePixels(q, Blank(p.width, p.height));
    }
  }
}
