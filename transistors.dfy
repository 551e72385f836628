/**
 * The pure specification of the transistor loop at the end of the netlist
 * extraction: the gate is the first polysilicon node an outline collides
 * with, the terminals are the diffusion nodes touching the outline nudged
 * in four directions, a transistor whose gate is tied to one terminal
 * with the other on VCC is a pull-up resistor (discarded, and its gate net
 * marked '+'), and the kept transistors are numbered consecutively from
 * 10000.
 */
module Devices {
  import opened Wrappers
  import opened Geometry
  import opened Loader
  import opened Connectivity

  /** The index ranges of the node list the loop looks at. */
  datatype Ranges = Ranges(metalStart: nat, polyStart: nat, diffStart: nat, diffEnd: nat)

  predicate RangesFit(g: Ranges, n: nat) {
    g.metalStart <= g.polyStart <= g.diffStart <= g.diffEnd <= n
  }

  // ---------------------------------------------------------------------
  // Gate and terminals of one outline
  // ---------------------------------------------------------------------

  /**
   * A copy of outline t moved by (dx, dy), with its box recomputed from the
   * moved ring: every vertex moves, and id, pull-up mark and layer stay.
   */
  function Probe(t: Node, dx: int, dy: int): (r: Node)
    ensures r.id == t.id && r.pullup == t.pullup && r.layer == t.layer
    ensures |r.poly| == |t.poly| && forall k :: 0 <= k < |t.poly| ==> r.poly[k] == Shift(t.poly[k], dx, dy)
    ensures r.bbox == Bounds(r.poly)
  {
    var p := Translate(t.poly, dx, dy);
    t.(poly := p, bbox := Bounds(p))
  }

  /**
   * Diffusion node sub touches outline t nudged 4 left, 2 right, 4 down or
   * 2 up; a node or outline without an edge touches nothing.
   */
  predicate Touches(sub: Node, t: Node)
    ensures Touches(sub, t) ==> |sub.poly| >= 2 && |t.poly| >= 2
  {
    Collide(sub, Probe(t, -4, 0)) || Collide(sub, Probe(t, 2, 0)) || Collide(sub, Probe(t, 0, -4)) || Collide(sub, Probe(t, 0, 2))
  }

  /** The outline's box grown by the probe distances: 4 to the left and down, 2 to the right and up. */
  function Reach(b: Rect): Rect {
    Rect(b.xmin - 4, b.ymin - 4, b.xmax + 2, b.ymax + 2)
  }

  /**
   * A node counts as touching only if its box meets the outline's box grown
   * by the probe distances (for rings whose coordinates, moved, stay in the
   * 32-bit range the boxes are computed in).
   */
  lemma TouchesNear(sub: Node, t: Node)
    requires |t.poly| >= 2 && InRange(t.poly)
    requires InRange(Translate(t.poly, -4, 0)) && InRange(Translate(t.poly, 2, 0))
    requires InRange(Translate(t.poly, 0, -4)) && InRange(Translate(t.poly, 0, 2))
    requires Touches(sub, t)
    ensures !BoxesApart(sub.bbox, Reach(Bounds(t.poly)))
  {
    BoundsTranslate(t.poly, -4, 0);
    BoundsTranslate(t.poly, 2, 0);
    BoundsTranslate(t.poly, 0, -4);
    BoundsTranslate(t.poly, 0, 2);
    BoundsEnclose(t.poly);
  }

  /** The gate id: the id of the first node of [lo, hi) the outline collides with, if any. */
  function Gate(nodes: seq<Node>, t: Node, lo: nat, hi: nat): (r: Option<int>)
    requires hi <= |nodes|
    ensures lo >= hi ==> r.None?
  {
    match FirstHit(nodes, t, lo, hi)
    case None => None
    case Some(j) => Some(nodes[j].id)
  }

  /** There is a gate exactly when some node of the range collides, and it is the first such node's id. */
  lemma GateIsFirst(nodes: seq<Node>, t: Node, lo: nat, hi: nat)
    requires hi <= |nodes|
    ensures Gate(nodes, t, lo, hi).Some? <==> exists k :: lo <= k < hi && Collide(nodes[k], t)
    ensures Gate(nodes, t, lo, hi).Some? ==>
              exists k :: lo <= k < hi && Collide(nodes[k], t) && Gate(nodes, t, lo, hi).value == nodes[k].id
                          && forall k' :: lo <= k' < k ==> !Collide(nodes[k'], t)
  {
    FirstHitIsFirst(nodes, t, lo, hi);
  }

  /** The ids of the nodes of [lo, hi) touching the outline, in node order, repeats included. */
  function Diffs(nodes: seq<Node>, t: Node, lo: nat, hi: nat): (r: seq<int>)
    requires lo <= hi <= |nodes|
    ensures |r| <= hi - lo
    decreases hi - lo
  {
    if hi == lo then []
    else Diffs(nodes, t, lo, hi - 1) + (if Touches(nodes[hi - 1], t) then [nodes[hi - 1].id] else [])
  }

  /** An id is listed exactly when some touching node of the range holds it. */
  lemma {:induction false} DiffsMembers(nodes: seq<Node>, t: Node, lo: nat, hi: nat)
    requires lo <= hi <= |nodes|
    ensures forall x :: x in Diffs(nodes, t, lo, hi) <==> exists k :: lo <= k < hi && Touches(nodes[k], t) && nodes[k].id == x
    decreases hi - lo
  {
    if hi > lo {
      DiffsMembers(nodes, t, lo, hi - 1);
    }
  }

  /**
   * The terminals and the pull-up verdict from the terminal ids and the
   * gate: with exactly two terminals, the one tied to the gate comes
   * first, and the transistor is a pull-up when the gate is tied to one
   * terminal, the other is VCC, and the gate is not GND; with any other
   * count both terminals are GND.
   */
  function Terminals(diffs: seq<int>, gate: Option<int>): (r: (int, int, bool))
    ensures |diffs| != 2 ==> r == (GND, GND, false)
    ensures |diffs| == 2 ==> (r.0, r.1) == (diffs[0], diffs[1]) || (r.0, r.1) == (diffs[1], diffs[0])
    ensures |diffs| == 2 && gate.Some? && gate.value in diffs ==> r.0 == gate.value
    ensures |diffs| == 2 && !(gate.Some? && gate.value in diffs) ==> r.0 == diffs[0] && r.1 == diffs[1]
    ensures r.2 <==> && |diffs| == 2 && gate.Some? && gate.value != GND
                     && ((diffs[0] == gate.value && diffs[1] == VCC) || (diffs[1] == gate.value && diffs[0] == VCC))
  {
    if |diffs| != 2 then (GND, GND, false)
    else
      var (c1, c2) := if Some(diffs[1]) == gate then (diffs[1], diffs[0]) else (diffs[0], diffs[1]);
      (c1, c2, Some(c1) == gate && c2 == VCC && c1 != GND)
  }

  // ---------------------------------------------------------------------
  // The loop over all transistors
  // ---------------------------------------------------------------------

  /** Every node of [lo, hi) on net g is marked as pulled up; nothing else changes. */
  function MarkPullups(nodes: seq<Node>, g: int, lo: nat, hi: nat): (r: seq<Node>)
    ensures |r| == |nodes|
  {
    seq(|nodes|, k requires 0 <= k < |nodes| => if lo <= k < hi && nodes[k].id == g then nodes[k].(pullup := '+') else nodes[k])
  }

  /** Node by node, marking sets the pull-up flag on exactly the nodes of the range on net g. */
  lemma MarkPullupsAt(nodes: seq<Node>, g: int, lo: nat, hi: nat)
    ensures forall k :: 0 <= k < |nodes| ==>
              MarkPullups(nodes, g, lo, hi)[k] == nodes[k].(pullup := MarkPullups(nodes, g, lo, hi)[k].pullup)
    ensures forall k :: 0 <= k < |nodes| ==>
              MarkPullups(nodes, g, lo, hi)[k].pullup == if lo <= k < hi && nodes[k].id == g then '+' else nodes[k].pullup
  {
  }

  /** What the loop threads: the nodes, the transistors handled so far, the next id, and the pull-up count. */
  datatype Tally = Tally(nodes: seq<Node>, done: seq<Transistor>, next: int, pullups: nat)

  /**
   * One transistor: it takes the next id, its gate and terminals are found,
   * and a pull-up is discarded (id 0, the id is handed back), counted, and
   * its gate net is marked over the metal, polysilicon and diffusion nodes.
   */
  function ClassifyStep(s: Tally, t: Node, g: Ranges): (r: Tally)
    requires RangesFit(g, |s.nodes|)
    ensures |r.nodes| == |s.nodes| && |r.done| == |s.done| + 1
  {
    var gate := Gate(s.nodes, t, g.polyStart, g.diffStart);
    var (c1, c2, pull) := Terminals(Diffs(s.nodes, t, g.diffStart, g.diffEnd), gate);
    if pull then
      Tally(MarkPullups(s.nodes, gate.value, g.metalStart, g.diffEnd), s.done + [Transistor(t.(id := 0), gate, c1, c2)], s.next, s.pullups + 1)
    else
      Tally(s.nodes, s.done + [Transistor(t.(id := s.next), gate, c1, c2)], s.next + 1, s.pullups)
  }

  /** The outlines ts handled in order. */
  function Classify(s: Tally, ts: seq<Node>, g: Ranges): (r: Tally)
    requires RangesFit(g, |s.nodes|)
    ensures |r.nodes| == |s.nodes| && |r.done| == |s.done| + |ts|
    decreases |ts|
  {
    if ts == [] then s else ClassifyStep(Classify(s, ts[..|ts| - 1], g), ts[|ts| - 1], g)
  }

  /** How many of the transistors are kept (have a nonzero id). */
  function Kept(ds: seq<Transistor>): (n: nat)
    ensures n <= |ds|
  {
    if ds == [] then 0 else Kept(ds[..|ds| - 1]) + (if ds[|ds| - 1].shape.id != 0 then 1 else 0)
  }

  /** Only pull-up flags differ between the two lists. */
  predicate OnlyPullupsChanged(a: seq<Node>, b: seq<Node>) {
    |a| == |b| && forall k :: 0 <= k < |a| ==> b[k] == a[k].(pullup := b[k].pullup)
  }

  /** The ids the loop hands out. */
  predicate Numbered(s: Tally, r: Tally, ts: seq<Node>) {
    && |r.done| == |ts|
    && r.next == s.next + Kept(r.done)
    && r.pullups == s.pullups + |ts| - Kept(r.done)
    && (forall k :: 0 <= k < |r.done| ==> r.done[k].shape == ts[k].(id := r.done[k].shape.id))
    && (forall k :: 0 <= k < |r.done| ==> r.done[k].shape.id == 0 || r.done[k].shape.id == s.next + Kept(r.done[..k]))
  }

  /** One iteration appends one transistor with t's outline: a pull-up with id 0, or a kept one with the next id. */
  predicate Appended(p: Tally, r: Tally, t: Node) {
    && |r.done| == |p.done| + 1 && r.done[..|p.done|] == p.done
    && r.done[|p.done|].shape == t.(id := r.done[|p.done|].shape.id)
    && (|| (r.done[|p.done|].shape.id == 0 && r.next == p.next && r.pullups == p.pullups + 1)
        || (r.done[|p.done|].shape.id == p.next && r.next == p.next + 1 && r.pullups == p.pullups))
  }

  lemma ClassifyStepAppends(p: Tally, t: Node, g: Ranges)
    requires RangesFit(g, |p.nodes|)
    ensures Appended(p, ClassifyStep(p, t, g), t)
  {
  }

  lemma NumberedStep(s: Tally, p: Tally, r: Tally, ts: seq<Node>)
    requires ts != [] && s.next > 0
    requires Numbered(s, p, ts[..|ts| - 1])
    requires Appended(p, r, ts[|ts| - 1])
    ensures Numbered(s, r, ts)
  {
    var n := |p.done|;
    var init := ts[..|ts| - 1];
    assert r.done[..n] == p.done;
    assert Kept(r.done) == Kept(p.done) + (if r.done[n].shape.id != 0 then 1 else 0);
    forall k | 0 <= k < |r.done|
      ensures r.done[k].shape == ts[k].(id := r.done[k].shape.id)
      ensures r.done[k].shape.id == 0 || r.done[k].shape.id == s.next + Kept(r.done[..k])
    {
      if k < n {
        assert r.done[k] == p.done[k] && ts[k] == init[k];
        assert r.done[..k] == r.done[..n][..k];
      }
    }
  }

  /**
   * Starting from an empty list, the loop keeps every outline, gives the
   * kept transistors the ids next, next+1, ... in order, gives pull-ups id
   * 0, counts them, and ends with next advanced by the number kept.
   */
  lemma {:induction false} ClassifyNumbers(s: Tally, ts: seq<Node>, g: Ranges)
    requires RangesFit(g, |s.nodes|) && s.done == [] && s.next > 0
    ensures Numbered(s, Classify(s, ts, g), ts)
    decreases |ts|
  {
    if ts != [] {
      var p := Classify(s, ts[..|ts| - 1], g);
      ClassifyNumbers(s, ts[..|ts| - 1], g);
      ClassifyStepAppends(p, ts[|ts| - 1], g);
      NumberedStep(s, p, Classify(s, ts, g), ts);
    }
  }

  /** Kept ids are distinct: they strictly increase along the list. */
  lemma KeptIdsIncrease(s: Tally, r: Tally, ts: seq<Node>, i: nat, j: nat)
    requires Numbered(s, r, ts) && i < j < |r.done|
    requires r.done[i].shape.id != 0 && r.done[j].shape.id != 0
    ensures r.done[i].shape.id < r.done[j].shape.id
  {
    KeptGrows(r.done, i, j);
  }

  lemma {:induction false} KeptGrows(ds: seq<Transistor>, i: nat, j: nat)
    requires i < j <= |ds| && ds[i].shape.id != 0
    ensures Kept(ds[..i]) < Kept(ds[..j])
    decreases j
  {
    if j > i + 1 {
      KeptGrows(ds, i, j - 1);
      assert ds[..j][..j - 1] == ds[..j - 1];
    } else {
      assert ds[..j][..j - 1] == ds[..i];
    }
  }

  /** A transistor of the loop's output is a pull-up exactly when its id is 0. */
  predicate PulledBy(ds: seq<Transistor>, x: int) {
    exists m :: 0 <= m < |ds| && ds[m].shape.id == 0 && ds[m].gate == Some(x)
  }

  /** What the loop does to the node list. */
  predicate Marked(s: Tally, r: Tally, g: Ranges) {
    && OnlyPullupsChanged(s.nodes, r.nodes)
    && (forall k :: 0 <= k < |s.nodes| && !(g.metalStart <= k < g.diffEnd) ==> r.nodes[k] == s.nodes[k])
    && (forall k :: g.metalStart <= k < g.diffEnd && k < |s.nodes| ==>
          (r.nodes[k].pullup == '+' <==> s.nodes[k].pullup == '+' || PulledBy(r.done, s.nodes[k].id)))
  }

  lemma MarkedStep(s: Tally, p: Tally, r: Tally, t: Node, g: Ranges)
    requires RangesFit(g, |s.nodes|) && |p.nodes| == |s.nodes|
    requires Marked(s, p, g) && p.next > 0
    requires r == ClassifyStep(p, t, g)
    ensures Marked(s, r, g)
  {
    var gate := Gate(p.nodes, t, g.polyStart, g.diffStart);
    var (c1, c2, pull) := Terminals(Diffs(p.nodes, t, g.diffStart, g.diffEnd), gate);
    assert r.done[..|p.done|] == p.done;
    assert forall x :: PulledBy(p.done, x) ==> PulledBy(r.done, x);
    if pull {
      MarkPullupsAt(p.nodes, gate.value, g.metalStart, g.diffEnd);
      assert PulledBy(r.done, gate.value) by {
        assert r.done[|p.done|].shape.id == 0;
      }
      forall x | PulledBy(r.done, x) && x != gate.value
        ensures PulledBy(p.done, x)
      {
        var m :| 0 <= m < |r.done| && r.done[m].shape.id == 0 && r.done[m].gate == Some(x);
        assert m < |p.done|;
      }
    } else {
      forall x | PulledBy(r.done, x)
        ensures PulledBy(p.done, x)
      {
        var m :| 0 <= m < |r.done| && r.done[m].shape.id == 0 && r.done[m].gate == Some(x);
        assert m < |p.done|;
      }
    }
  }

  /**
   * Starting from an empty list, the loop changes only pull-up flags, only
   * in [metalStart, diffEnd), and a node there ends up marked exactly when
   * it was marked before or it is on the gate net of some pull-up.
   */
  lemma {:induction false} ClassifyMarks(s: Tally, ts: seq<Node>, g: Ranges)
    requires RangesFit(g, |s.nodes|) && s.done == [] && s.next > 0
    ensures Marked(s, Classify(s, ts, g), g)
    decreases |ts|
  {
    if ts != [] {
      var p := Classify(s, ts[..|ts| - 1], g);
      ClassifyMarks(s, ts[..|ts| - 1], g);
      ClassifyNumbers(s, ts[..|ts| - 1], g);
      MarkedStep(s, p, Classify(s, ts, g), ts[|ts| - 1], g);
    }
  }

  /** Marking pull-ups changes neither gates nor terminal lists. */
  lemma {:induction false} DiffsIgnorePullups(a: seq<Node>, b: seq<Node>, t: Node, lo: nat, hi: nat)
    requires OnlyPullupsChanged(a, b) && lo <= hi <= |a|
    ensures Diffs(a, t, lo, hi) == Diffs(b, t, lo, hi)
    decreases hi - lo
  {
    if hi > lo {
      DiffsIgnorePullups(a, b, t, lo, hi - 1);
      CollideShape(a[hi - 1], b[hi - 1], Probe(t, -4, 0));
      CollideShape(a[hi - 1], b[hi - 1], Probe(t, 2, 0));
      CollideShape(a[hi - 1], b[hi - 1], Probe(t, 0, -4));
      CollideShape(a[hi - 1], b[hi - 1], Probe(t, 0, 2));
    }
  }

  lemma GateIgnoresPullups(a: seq<Node>, b: seq<Node>, t: Node, lo: nat, hi: nat)
    requires OnlyPullupsChanged(a, b) && hi <= |a|
    ensures Gate(a, t, lo, hi) == Gate(b, t, lo, hi)
  {
    FirstHitShapes(a, b, t, lo, hi);
  }

  /** The verdict the loop records for transistor k, judged on the node list it started from. */
  predicate Judged(nodes: seq<Node>, d: Transistor, t: Node, g: Ranges)
    requires RangesFit(g, |nodes|)
  {
    var gate := Gate(nodes, t, g.polyStart, g.diffStart);
    var (c1, c2, pull) := Terminals(Diffs(nodes, t, g.diffStart, g.diffEnd), gate);
    d.gate == gate && d.c1 == c1 && d.c2 == c2 && (d.shape.id == 0 <==> pull)
  }

  lemma JudgedStep(s: Tally, p: Tally, r: Tally, ts: seq<Node>, g: Ranges)
    requires ts != [] && RangesFit(g, |s.nodes|) && |p.nodes| == |s.nodes| && |p.done| == |ts| - 1
    requires OnlyPullupsChanged(s.nodes, p.nodes) && p.next > 0
    requires forall k :: 0 <= k < |p.done| ==> Judged(s.nodes, p.done[k], ts[k], g)
    requires r == ClassifyStep(p, ts[|ts| - 1], g)
    ensures forall k :: 0 <= k < |r.done| ==> Judged(s.nodes, r.done[k], ts[k], g)
  {
    var t := ts[|ts| - 1];
    var n := |p.done|;
    ClassifyStepJudged(p, t, g, r);
    JudgedIgnoresPullups(s.nodes, p.nodes, r.done[n], t, g);
    forall k | 0 <= k < |r.done|
      ensures Judged(s.nodes, r.done[k], ts[k], g)
    {
      if k < n {
        assert r.done[k] == p.done[k];
      }
    }
  }

  /** The transistor one iteration appends carries the verdict judged on the node list it saw, and the earlier ones stay. */
  lemma ClassifyStepJudged(p: Tally, t: Node, g: Ranges, r: Tally)
    requires RangesFit(g, |p.nodes|) && p.next > 0 && r == ClassifyStep(p, t, g)
    ensures r.done[..|p.done|] == p.done
    ensures Judged(p.nodes, r.done[|p.done|], t, g)
  {
  }

  /** Pull-up flags play no part in the verdict. */
  lemma JudgedIgnoresPullups(a: seq<Node>, b: seq<Node>, d: Transistor, t: Node, g: Ranges)
    requires RangesFit(g, |a|) && OnlyPullupsChanged(a, b)
    ensures Judged(a, d, t, g) == Judged(b, d, t, g)
  {
    GateIgnoresPullups(a, b, t, g.polyStart, g.diffStart);
    DiffsIgnorePullups(a, b, t, g.diffStart, g.diffEnd);
  }

  /**
   * Starting from an empty list, every recorded transistor carries the gate
   * and terminals judged on the node list the loop started from, and has
   * id 0 exactly when it was judged a pull-up.
   */
  lemma {:induction false} ClassifyJudges(s: Tally, ts: seq<Node>, g: Ranges)
    requires RangesFit(g, |s.nodes|) && s.done == [] && s.next > 0
    ensures forall k :: 0 <= k < |ts| ==> Judged(s.nodes, Classify(s, ts, g).done[k], ts[k], g)
    decreases |ts|
  {
    if ts != [] {
      var p := Classify(s, ts[..|ts| - 1], g);
      ClassifyJudges(s, ts[..|ts| - 1], g);
      ClassifyMarks(s, ts[..|ts| - 1], g);
      ClassifyNumbers(s, ts[..|ts| - 1], g);
      JudgedStep(s, p, Classify(s, ts, g), ts, g);
    }
  }
}
