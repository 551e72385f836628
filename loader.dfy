/**
 * The layer loader: a layer file is a list of `x,y` integer pairs; the pair
 * `-1,-1` closes the current polygon and starts the next. Each vertex is
 * doubled and flipped vertically (y' = 12512 - 2y); connector layers are
 * further offset by one unit on both axes. Each closed polygon becomes a
 * node with id 0, pull-up mark '-', the file's layer and its bounding box.
 *
 * A file is modelled as its sequence of lines, each either a parsed pair or
 * a line that does not parse.
 */
module Loader {
  import opened Wrappers
  import opened Geometry

  const LAYER_METAL: int := 0
  const LAYER_DIFF: int := 1
  const LAYER_PROTECT: int := 2
  const LAYER_DIFF_GND: int := 3
  const LAYER_DIFF_VCC: int := 4
  const LAYER_POLY: int := 5
  const LAYER_SPECIAL: int := 6

  /** The height of the chip image, in pixels, after doubling. */
  const FLIP: int := 12512

  datatype Token = Pair(x: int, y: int) | Garbled

  datatype LoadError = Unreadable | VccPlaneCount | GndPlaneCount

  predicate IsSentinel(t: Token) {
    t == Pair(-1, -1)
  }

  /**
   * Where a pixel coordinate lands: doubled and flipped; connector layers
   * sit one unit further on each axis, so their vertices (odd coordinates)
   * never coincide with plane vertices (even coordinates).
   */
  function Place(x: int, y: int, layer: int): (v: Vertex)
    ensures layer == LAYER_SPECIAL ==> v.x % 2 == 1 && v.y % 2 == 1
    ensures layer != LAYER_SPECIAL ==> v.x % 2 == 0 && v.y % 2 == 0
    ensures x == v.x / 2 && y == (FLIP - v.y + 1) / 2
  {
    if layer == LAYER_SPECIAL then Vertex(x * 2 + 1, FLIP - y * 2 + 1)
    else Vertex(x * 2, FLIP - y * 2)
  }

  /** A vertex of a plane layer never equals a vertex of a connector layer. */
  lemma PlaneAndConnectorVerticesDiffer(x: int, y: int, layer: int, x': int, y': int)
    requires layer != LAYER_SPECIAL
    ensures Place(x, y, layer) != Place(x', y', LAYER_SPECIAL)
  {
  }

  /** The node made when a `-1,-1` line closes the polygon `cur`. */
  function CloseNode(cur: seq<Vertex>, layer: int): (n: Node)
    requires cur != []
    ensures n.id == 0 && n.pullup == '-' && n.layer == layer
    ensures |n.poly| == |cur| + 1 && Closed(n.poly) && n.poly[..|cur|] == cur && n.bbox == Bounds(n.poly)
  {
    var ring := cur + [cur[0]];
    Node(0, '-', layer, ring, Bounds(ring))
  }

  /** Every `-1,-1` line closes a polygon with at least one vertex. */
  predicate ClosesNonEmpty(ts: seq<Token>, cur: seq<Vertex>) {
    && (|ts| > 0 && IsSentinel(ts[0]) ==> cur != [])
    && forall k :: 1 <= k < |ts| && IsSentinel(ts[k]) ==> !IsSentinel(ts[k - 1])
  }

  /** A whole file whose every `-1,-1` line closes a polygon with at least one vertex. */
  predicate WellFormed(ts: seq<Token>) {
    ClosesNonEmpty(ts, [])
  }

  function Prepend(n: Node, r: Result<seq<Node>, LoadError>): Result<seq<Node>, LoadError> {
    match r
    case Ok(ns) => Ok([n] + ns)
    case Err(e) => Err(e)
  }

  function PrependAll(ns: seq<Node>, r: Result<seq<Node>, LoadError>): Result<seq<Node>, LoadError> {
    match r
    case Ok(ms) => Ok(ns + ms)
    case Err(e) => Err(e)
  }

  lemma PrependAllStep(ns: seq<Node>, n: Node, r: Result<seq<Node>, LoadError>)
    ensures PrependAll(ns, Prepend(n, r)) == PrependAll(ns + [n], r)
  {
    if r.Ok? {
      assert ns + ([n] + r.value) == ns + [n] + r.value;
    }
  }

  lemma PrependAllEmpty(r: Result<seq<Node>, LoadError>)
    ensures PrependAll([], r) == r
  {
    match r
    case Ok(ms) => assert [] + ms == ms;
    case Err(e) =>
  }

  lemma PrependAllDone(ns: seq<Node>)
    ensures PrependAll(ns, Ok([])) == Ok(ns)
  {
    assert ns + [] == ns;
  }

  /** The number of `-1,-1` lines. */
  function Sentinels(ts: seq<Token>): nat {
    if ts == [] then 0 else (if IsSentinel(ts[0]) then 1 else 0) + Sentinels(ts[1..])
  }

  /** A node as the loader makes it: unassigned, not pulled up, closed, with its own box. */
  predicate Fresh(n: Node, layer: int) {
    n.id == 0 && n.pullup == '-' && n.layer == layer && Closed(n.poly) && n.bbox == Bounds(n.poly)
  }

  /**
   * The nodes read from the remaining lines `ts` of a file of the given
   * layer, `cur` being the vertices of the polygon read so far. Vertices
   * after the last `-1,-1` are dropped; a line that does not parse is fatal.
   */
  function Load(ts: seq<Token>, layer: int, cur: seq<Vertex>): (r: Result<seq<Node>, LoadError>)
    requires ClosesNonEmpty(ts, cur)
    ensures r.Ok? ==> |r.value| == Sentinels(ts)
    ensures r.Ok? ==> forall k :: 0 <= k < |r.value| ==> Fresh(r.value[k], layer)
    ensures r.Err? <==> Garbled in ts
    ensures r.Err? ==> r.error == Unreadable
  {
    if ts == [] then Ok([])
    else match ts[0]
      case Garbled => Err(Unreadable)
      case Pair(x, y) =>
        if x == -1 && y == -1 then Prepend(CloseNode(cur, layer), Load(ts[1..], layer, []))
        else Load(ts[1..], layer, cur + [Place(x, y, layer)])
  }

  /** The lines of one polygon's vertices, none of them `-1,-1`. */
  predicate PlainVertices(ps: seq<Token>) {
    forall k :: 0 <= k < |ps| ==> ps[k].Pair? && !IsSentinel(ps[k])
  }

  function PlaceAll(ps: seq<Token>, layer: int): (vs: seq<Vertex>)
    requires PlainVertices(ps)
    ensures |vs| == |ps|
  {
    if ps == [] then [] else [Place(ps[0].x, ps[0].y, layer)] + PlaceAll(ps[1..], layer)
  }

  /**
   * One polygon: its vertex lines followed by `-1,-1` produce exactly one
   * node, whose ring is the placed vertices closed by the first one; the
   * rest of the file is then read from an empty polygon.
   */
  lemma {:induction false} LoadRing(ps: seq<Token>, rest: seq<Token>, layer: int, cur: seq<Vertex>)
    requires PlainVertices(ps) && cur + PlaceAll(ps, layer) != []
    requires ClosesNonEmpty(rest, [])
    ensures ClosesNonEmpty(ps + [Pair(-1, -1)] + rest, cur)
    ensures Load(ps + [Pair(-1, -1)] + rest, layer, cur)
         == Prepend(CloseNode(cur + PlaceAll(ps, layer), layer), Load(rest, layer, []))
  {
    var ts := ps + [Pair(-1, -1)] + rest;
    if ps == [] {
      assert ts == [Pair(-1, -1)] + rest;
      assert ts[1..] == rest;
      assert cur + PlaceAll(ps, layer) == cur;
    } else {
      var cur' := cur + [Place(ps[0].x, ps[0].y, layer)];
      assert ts[1..] == ps[1..] + [Pair(-1, -1)] + rest;
      assert cur' + PlaceAll(ps[1..], layer) == cur + PlaceAll(ps, layer);
      LoadRing(ps[1..], rest, layer, cur');
    }
  }

  /** Vertices after the last `-1,-1` are discarded. */
  lemma {:induction false} LoadDropsUnclosed(ps: seq<Token>, layer: int, cur: seq<Vertex>)
    requires PlainVertices(ps)
    ensures ClosesNonEmpty(ps, cur)
    ensures Load(ps, layer, cur) == Ok([])
  {
    if ps != [] {
      LoadDropsUnclosed(ps[1..], layer, cur + [Place(ps[0].x, ps[0].y, layer)]);
    }
  }

  /** A line that does not parse, reached before the end, makes the whole file fail. */
  lemma {:induction false} LoadFailsOnGarbled(ps: seq<Token>, rest: seq<Token>, layer: int, cur: seq<Vertex>)
    requires PlainVertices(ps)
    ensures ClosesNonEmpty(ps + [Garbled] + rest, cur) <== ClosesNonEmpty(rest, [])
    ensures ClosesNonEmpty(ps + [Garbled] + rest, cur) ==> Load(ps + [Garbled] + rest, layer, cur) == Err(Unreadable)
  {
    var ts := ps + [Garbled] + rest;
    if ps != [] {
      assert ts[1..] == ps[1..] + [Garbled] + rest;
      LoadFailsOnGarbled(ps[1..], rest, layer, cur + [Place(ps[0].x, ps[0].y, layer)]);
    } else {
      assert ts[1..] == rest;
    }
  }

  /** Reads one layer file, building each polygon with the polygon object's add, finish and box methods. */
  method ReadNodes(ts: seq<Token>, layer: int) returns (r: Result<seq<Node>, LoadError>)
    requires WellFormed(ts)
    ensures r == Load(ts, layer, [])
  {
    var nodes: seq<Node> := [];
    var n := new Polygon();
    var i := 0;
    assert ts[i..] == ts;
    PrependAllEmpty(Load(ts, layer, []));
    while i < |ts|
      invariant 0 <= i <= |ts|
      invariant fresh(n)
      invariant ClosesNonEmpty(ts[i..], n.vertices)
      invariant Load(ts, layer, []) == PrependAll(nodes, Load(ts[i..], layer, n.vertices))
    {
      assert ts[i..][1..] == ts[i + 1..];
      match ts[i]
      case Garbled =>
        return Err(Unreadable);
      case Pair(x, y) =>
        if x == -1 && y == -1 {
          ghost var cur := n.vertices;
          n.Finish();
          var bbox := n.BRect();
          nodes := nodes + [Node(0, '-', layer, n.vertices, bbox)];
          assert Node(0, '-', layer, n.vertices, bbox) == CloseNode(cur, layer);
          PrependAllStep(nodes[..|nodes| - 1], CloseNode(cur, layer), Load(ts[i + 1..], layer, []));
          n := new Polygon();
        } else if layer == LAYER_SPECIAL {
          n.Add(x * 2 + 1, FLIP - y * 2 + 1);
        } else {
          n.Add(x * 2, FLIP - y * 2);
        }
      i := i + 1;
    }
    assert ts[i..] == [];
    PrependAllDone(nodes);
    return Ok(nodes);
  }

  /** The node list of a chip, with the index ranges of its layers. */
  datatype Chip = Chip(nodes: seq<Node>, metalStart: nat, polyStart: nat, diffStart: nat, diffEnd: nat)

  /** Layer order and range invariants of a loaded chip. */
  predicate ChipLayout(c: Chip) {
    && c.metalStart == 2 && c.metalStart <= c.polyStart <= c.diffStart <= c.diffEnd == |c.nodes|
    && (forall k :: 0 <= k < c.polyStart ==> Fresh(c.nodes[k], LAYER_METAL))
    && (forall k :: c.polyStart <= k < c.diffStart ==> Fresh(c.nodes[k], LAYER_POLY))
    && (forall k :: c.diffStart <= k < c.diffEnd ==> Fresh(c.nodes[k], LAYER_DIFF))
  }

  /** The chip the five layer files describe, or the first error loading them meets. */
  function Assemble(vcc: seq<Token>, gnd: seq<Token>, metal: seq<Token>, poly: seq<Token>, diff: seq<Token>)
    : (r: Result<Chip, LoadError>)
    requires WellFormed(vcc) && WellFormed(gnd) && WellFormed(metal) && WellFormed(poly) && WellFormed(diff)
    ensures r.Ok? ==> ChipLayout(r.value)
  {
    var a := Load(vcc, LAYER_METAL, []);
    var b := Load(gnd, LAYER_METAL, []);
    var m := Load(metal, LAYER_METAL, []);
    var p := Load(poly, LAYER_POLY, []);
    var d := Load(diff, LAYER_DIFF, []);
    if a.Err? then Err(Unreadable)
    else if |a.value| != 1 then Err(VccPlaneCount)
    else if b.Err? then Err(Unreadable)
    else if |b.value| != 1 then Err(GndPlaneCount)
    else if m.Err? || p.Err? || d.Err? then Err(Unreadable)
    else Ok(Chip(a.value + b.value + m.value + p.value + d.value,
                 2, 2 + |m.value|, 2 + |m.value| + |p.value|, 2 + |m.value| + |p.value| + |d.value|))
  }

  /**
   * Loads the VCC plane, the GND plane, metal, polysilicon and diffusion in
   * that order; each plane must hold exactly one polygon.
   */
  method LoadChip(vcc: seq<Token>, gnd: seq<Token>, metal: seq<Token>, poly: seq<Token>, diff: seq<Token>)
    returns (r: Result<Chip, LoadError>)
    requires WellFormed(vcc) && WellFormed(gnd) && WellFormed(metal) && WellFormed(poly) && WellFormed(diff)
    ensures r == Assemble(vcc, gnd, metal, poly, diff)
    ensures r.Ok? ==> ChipLayout(r.value)
    ensures r.Ok? <==> (Garbled !in vcc + gnd + metal + poly + diff && Sentinels(vcc) == 1 && Sentinels(gnd) == 1)
    ensures r == Err(VccPlaneCount) <==> Garbled !in vcc && Sentinels(vcc) != 1
    ensures r == Err(GndPlaneCount) <==> Garbled !in vcc + gnd && Sentinels(vcc) == 1 && Sentinels(gnd) != 1
    ensures r.Ok? ==> r.value.nodes == Load(vcc, LAYER_METAL, []).value + Load(gnd, LAYER_METAL, []).value
                                       + Load(metal, LAYER_METAL, []).value + Load(poly, LAYER_POLY, []).value
                                       + Load(diff, LAYER_DIFF, []).value
  {
    var a := ReadNodes(vcc, LAYER_METAL);
    if a.Err? {
      return Err(Unreadable);
    }
    if |a.value| != 1 {
      return Err(VccPlaneCount);
    }
    var b := ReadNodes(gnd, LAYER_METAL);
    if b.Err? {
      return Err(Unreadable);
    }
    if |b.value| != 1 {
      return Err(GndPlaneCount);
    }
    var nodes := a.value + b.value;
    var metalStart := |nodes|;
    var m := ReadNodes(metal, LAYER_METAL);
    if m.Err? {
      return Err(Unreadable);
    }
    nodes := nodes + m.value;
    var polyStart := |nodes|;
    var p := ReadNodes(poly, LAYER_POLY);
    if p.Err? {
      return Err(Unreadable);
    }
    nodes := nodes + p.value;
    var diffStart := |nodes|;
    var d := ReadNodes(diff, LAYER_DIFF);
    if d.Err? {
      return Err(Unreadable);
    }
    nodes := nodes + d.value;
    r := Ok(Chip(nodes, metalStart, polyStart, diffStart, |nodes|));
  }
}
