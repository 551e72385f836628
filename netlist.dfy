/**
 * The netlist extraction itself: the node list, the pending connectors and
 * the fresh-id counter are fields of one object, and each phase of the
 * program (the two power planes, the metal pass, the polysilicon pass, the
 * diffusion pass, the transistor loop, the final move and the two output
 * tables) is a method that changes them step by step. Every method is
 * proved against the pure functions of modules Connectivity and Devices.
 */
module Netlist {
  import opened Wrappers
  import opened Geometry
  import opened Loader
  import opened Connectivity
  import opened Devices

  /**
   * The coordinate list of a ring as the report and output lines print it:
   * vertices 1 .. on. A ring of fewer than two vertices (which the loader
   * never makes) prints as nothing.
   */
  function Text(v: Node): (r: seq<int>)
    ensures |v.poly| >= 2 ==> |r| == 2 * (|v.poly| - 1)
  {
    if |v.poly| < 2 then []
    else
      CoordsAt(v.poly[1..]);
      Coords(v.poly[1..])
  }

  /** The lines of an unhit-connector report: the pool emptied from the back. */
  function Unhit(vs: seq<Node>): (r: seq<seq<int>>)
    ensures |r| == |vs|
    decreases |vs|
  {
    if vs == [] then [] else [Text(vs[|vs| - 1])] + Unhit(vs[..|vs| - 1])
  }

  /** The report has one line per connector, the last connector first. */
  lemma {:induction false} UnhitAt(vs: seq<Node>)
    ensures |Unhit(vs)| == |vs|
    ensures forall k :: 0 <= k < |vs| ==> Unhit(vs)[k] == Text(vs[|vs| - 1 - k])
    decreases |vs|
  {
    if vs != [] {
      var init := vs[..|vs| - 1];
      UnhitAt(init);
      assert Unhit(vs) == [Text(vs[|vs| - 1])] + Unhit(init);
      forall k | 0 < k < |vs|
        ensures Unhit(vs)[k] == Text(vs[|vs| - 1 - k])
      {
        assert Unhit(vs)[k] == Unhit(init)[k - 1];
        assert init[|init| - 1 - (k - 1)] == vs[|vs| - 1 - k];
      }
    }
  }

  /**
   * A transistor moved back by one unit on both axes, its box recomputed
   * from the moved ring; its id, gate and terminals stay.
   */
  function Settle(d: Transistor): (r: Transistor)
    ensures r.shape.id == d.shape.id && r.gate == d.gate && r.c1 == d.c1 && r.c2 == d.c2
    ensures |r.shape.poly| == |d.shape.poly|
    ensures forall k :: 0 <= k < |d.shape.poly| ==> r.shape.poly[k] == Vertex(d.shape.poly[k].x - 1, d.shape.poly[k].y - 1)
    ensures r.shape.bbox == Bounds(r.shape.poly)
  {
    d.(shape := Probe(d.shape, -1, -1))
  }

  /** A line of the transistor table: id, gate, terminals, and the box as xmin, xmax, ymin, ymax. */
  datatype TransRow = TransRow(id: int, gate: Option<int>, c1: int, c2: int, xmin: int, xmax: int, ymin: int, ymax: int)

  /** A line of the segment table: id, pull-up mark, layer, coordinates. */
  datatype SegRow = SegRow(id: int, pullup: char, layer: int, coords: seq<int>)

  function Row(d: Transistor): TransRow {
    TransRow(d.shape.id, d.gate, d.c1, d.c2, d.shape.bbox.xmin, d.shape.bbox.xmax, d.shape.bbox.ymin, d.shape.bbox.ymax)
  }

  /** The transistor table: one row per transistor with a nonzero id, in order. */
  function KeptRows(ds: seq<Transistor>): (r: seq<TransRow>)
    ensures |r| <= |ds|
  {
    if ds == [] then [] else KeptRows(ds[..|ds| - 1]) + (if ds[|ds| - 1].shape.id != 0 then [Row(ds[|ds| - 1])] else [])
  }

  /** The table has exactly the kept transistors: as many rows as Kept counts, and no row with id 0. */
  lemma {:induction false} KeptRowsCount(ds: seq<Transistor>)
    ensures |KeptRows(ds)| == Kept(ds)
    ensures forall q :: 0 <= q < |KeptRows(ds)| ==> KeptRows(ds)[q].id != 0
  {
    if ds != [] {
      KeptRowsCount(ds[..|ds| - 1]);
    }
  }

  /**
   * When the kept transistors carry the ids base, base+1, ... in order, the
   * table's q-th row has id base + q: the table is numbered without gaps.
   */
  lemma {:induction false} KeptRowsNumbered(ds: seq<Transistor>, base: int)
    requires forall k :: 0 <= k < |ds| ==> ds[k].shape.id == 0 || ds[k].shape.id == base + Kept(ds[..k])
    requires base > 0
    ensures forall q :: 0 <= q < |KeptRows(ds)| ==> KeptRows(ds)[q].id == base + q
    decreases |ds|
  {
    if ds != [] {
      var n := |ds| - 1;
      forall k | 0 <= k < n
        ensures ds[..n][k].shape.id == 0 || ds[..n][k].shape.id == base + Kept(ds[..n][..k])
      {
        assert ds[..n][..k] == ds[..k];
      }
      KeptRowsNumbered(ds[..n], base);
      KeptRowsCount(ds[..n]);
      assert ds[..n] == ds[..|ds|][..n];
    }
  }

  /** The segment table: every node from index 2 on (the planes are skipped), in order. */
  function SegRows(nodes: seq<Node>): (r: seq<SegRow>)
    ensures |r| == if |nodes| >= 2 then |nodes| - 2 else 0
    ensures forall q :: 0 <= q < |r| ==> r[q].id == nodes[q + 2].id && r[q].layer == nodes[q + 2].layer
    ensures forall q :: 0 <= q < |r| ==> r[q].pullup == nodes[q + 2].pullup && r[q].coords == Text(nodes[q + 2])
  {
    if |nodes| <= 2 then []
    else seq(|nodes| - 2, q requires 0 <= q < |nodes| - 2 =>
           SegRow(nodes[q + 2].id, nodes[q + 2].pullup, nodes[q + 2].layer, Text(nodes[q + 2])))
  }

  class Extraction {
    /** The index ranges of the layers in the node list: metal (after the planes), polysilicon, diffusion. */
    const metalStart: nat
    const polyStart: nat
    const diffStart: nat
    const diffEnd: nat

    /** Every node of the chip: the VCC plane, the GND plane, metal, polysilicon, diffusion. */
    var nodes: seq<Node>
    /** The connectors (vias, later buried contacts) not yet consumed. */
    var vias: seq<Node>
    var nextNode: int
    /** Every connector consumed so far, in order (for the proofs only). */
    ghost var taken: seq<Node>
    var transistors: seq<Transistor>
    var pullups: nat

    predicate Valid()
      reads this
    {
      metalStart == 2 && metalStart <= polyStart <= diffStart <= diffEnd == |nodes|
    }

    /** The state a connector pass threads. */
    ghost function State(): Pass
      reads this
    {
      Pass(nodes, vias, nextNode, taken)
    }

    function Layout(): Ranges
      reads this
    {
      Ranges(metalStart, polyStart, diffStart, diffEnd)
    }

    /** A loaded chip and its vias; the next fresh id is 10002. */
    constructor (chip: Chip, connectors: seq<Node>)
      requires ChipLayout(chip)
      ensures Valid()
      ensures metalStart == chip.metalStart && polyStart == chip.polyStart
      ensures diffStart == chip.diffStart && diffEnd == chip.diffEnd
      ensures State() == Pass(chip.nodes, connectors, FIRST_FRESH, [])
      ensures transistors == [] && pullups == 0
    {
      metalStart := chip.metalStart;
      polyStart := chip.polyStart;
      diffStart := chip.diffStart;
      diffEnd := chip.diffEnd;
      nodes := chip.nodes;
      vias := connectors;
      nextNode := FIRST_FRESH;
      taken := [];
      transistors := [];
      pullups := 0;
    }

    /** The inner scan of every pass: the first node of [lo, hi) that c collides with. */
    method FirstCollider(c: Node, lo: nat, hi: nat) returns (r: Option<nat>)
      requires hi <= |nodes|
      ensures r == FirstHit(nodes, c, lo, hi)
    {
      var j := lo;
      while j < hi
        invariant lo <= j
        invariant FirstHit(nodes, c, j, hi) == FirstHit(nodes, c, lo, hi)
        decreases hi - j
      {
        if Collide(nodes[j], c) {
          return Some(j);
        }
        j := j + 1;
      }
      return None;
    }

    /** Sorts the pending connectors into those outer node cur collides with and the others. */
    method SplitPool(cur: Node) returns (matched: seq<Node>, unmatched: seq<Node>)
      ensures (matched, unmatched) == Split(vias, cur)
    {
      matched, unmatched := [], [];
      var i := 0;
      while i < |vias|
        invariant 0 <= i <= |vias|
        invariant (matched, unmatched) == Split(vias[..i], cur)
      {
        assert vias[..i + 1][..i] == vias[..i];
        if Collide(cur, vias[i]) {
          matched := matched + [vias[i]];
        } else {
          unmatched := unmatched + [vias[i]];
        }
        i := i + 1;
      }
      assert vias[..i] == vias;
    }

    /** Moves every node holding id `from` to id `into`. */
    method MergeNet(from: int, into: int)
      modifies this
      ensures State() == old(State()).(nodes := Renumber(old(nodes), from, into))
      ensures transistors == old(transistors) && pullups == old(pullups)
    {
      ghost var n0 := nodes;
      var k := 0;
      while k < |nodes|
        invariant |nodes| == |n0| && 0 <= k <= |nodes|
        invariant forall m :: 0 <= m < k ==> nodes[m] == Renumber(n0, from, into)[m]
        invariant forall m :: k <= m < |nodes| ==> nodes[m] == n0[m]
        invariant State() == old(State()).(nodes := nodes)
        invariant transistors == old(transistors) && pullups == old(pullups)
      {
        if nodes[k].id == from {
          nodes := nodes[k := nodes[k].(id := into)];
        }
        k := k + 1;
      }
    }

    /** A connector of target t hit inner node j: stamp the rail, or join j and outer node t.cur. */
    method Hit(t: Target, j: nat)
      requires TargetIn(t, nodes) && j < |nodes|
      modifies this
      ensures State() == old(State()).(nodes := Apply(old(nodes), t, j))
      ensures transistors == old(transistors) && pullups == old(pullups)
    {
      match t
      case Rail(rail) =>
        nodes := nodes[j := nodes[j].(id := rail)];
      case Join(cur) =>
        if nodes[j].id == 0 {
          nodes := nodes[j := nodes[j].(id := nodes[cur].id)];
        } else if nodes[j].id != nodes[cur].id {
          MergeNet(nodes[cur].id, nodes[j].id);
        }
    }

    /**
     * Outer node cur collects the pending connectors it collides with, then
     * takes them from the back one at a time: one that hits a node of
     * [lo, hi) is consumed, the others stay pending.
     */
    method SweepPool(t: Target, cur: nat, lo: nat, hi: nat)
      requires TargetIn(t, nodes) && cur < |nodes| && hi <= |nodes|
      modifies this
      ensures nodes == Sweep(old(nodes), t, cur, old(vias), lo, hi).nodes
      ensures vias == Sweep(old(nodes), t, cur, old(vias), lo, hi).pool
      ensures taken == old(taken) + Sweep(old(nodes), t, cur, old(vias), lo, hi).taken
      ensures nextNode == old(nextNode) && transistors == old(transistors) && pullups == old(pullups)
    {
      ghost var d0 := Sweep(nodes, t, cur, vias, lo, hi);
      var matched, unmatched := SplitPool(nodes[cur]);
      ghost var tk: seq<Node> := [];
      while matched != []
        invariant |nodes| == |old(nodes)| && TargetIn(t, nodes)
        invariant Drain(nodes, t, matched, unmatched, tk, lo, hi) == d0
        invariant taken == old(taken) && nextNode == old(nextNode)
        invariant transistors == old(transistors) && pullups == old(pullups)
        decreases |matched|
      {
        var via := matched[|matched| - 1];
        matched := matched[..|matched| - 1];
        var hit := FirstCollider(via, lo, hi);
        match hit
        case None =>
          unmatched := unmatched + [via];
        case Some(j) =>
          Hit(t, j);
          tk := tk + [via];
      }
      vias := unmatched;
      taken := taken + tk;
    }

    /** A power plane: plane node p takes the rail id and hands it to every inner node its vias hit. */
    method SeedPlane(p: nat, rail: int)
      requires Valid() && p < |nodes|
      modifies this
      ensures Valid()
      ensures State() == PlanePass(old(State()), p, rail, polyStart, diffEnd)
      ensures transistors == old(transistors) && pullups == old(pullups)
    {
      nodes := nodes[p := nodes[p].(id := rail)];
      SweepPool(Rail(rail), p, polyStart, diffEnd);
    }

    /**
     * One outer node of the metal or polysilicon pass: it takes a fresh id
     * if it has none, its connectors join the inner nodes they hit to its
     * net, and in the polysilicon pass it is retagged if it ended on GND.
     */
    method ResolveNode(i: nat, lo: nat, hi: nat, protect: bool)
      requires Valid() && i < |nodes| && hi <= |nodes|
      modifies this
      ensures Valid()
      ensures State() == JoinStep(old(State()), i, lo, hi, protect)
      ensures transistors == old(transistors) && pullups == old(pullups)
    {
      if nodes[i].id == 0 {
        nodes := nodes[i := nodes[i].(id := nextNode)];
        nextNode := nextNode + 1;
      }
      SweepPool(Join(i), i, lo, hi);
      if protect && nodes[i].id == GND {
        nodes := nodes[i := nodes[i].(layer := LAYER_PROTECT)];
      }
    }

    /** The outer nodes [from, until) resolved in order against the inner range [lo, hi). */
    method ResolvePass(from: nat, until: nat, lo: nat, hi: nat, protect: bool)
      requires Valid() && from <= until <= |nodes| && hi <= |nodes|
      modifies this
      ensures Valid()
      ensures State() == JoinPass(old(State()), from, until, lo, hi, protect)
      ensures transistors == old(transistors) && pullups == old(pullups)
    {
      var i := from;
      while i < until
        invariant from <= i <= until && Valid() && |nodes| == |old(nodes)|
        invariant State() == JoinPass(old(State()), from, i, lo, hi, protect)
        invariant transistors == old(transistors) && pullups == old(pullups)
      {
        JoinPassNext(old(State()), from, i, lo, hi, protect);
        ResolveNode(i, lo, hi, protect);
        assert |nodes| == |JoinPass(old(State()), from, i + 1, lo, hi, protect).nodes| == |old(State()).nodes|;
        i := i + 1;
      }
    }

    /** Empties the pending connectors from the back, reporting the coordinates of each. */
    method ReportUnhit() returns (report: seq<seq<int>>)
      modifies this
      ensures report == Unhit(old(vias))
      ensures State() == old(State()).(pool := [])
      ensures transistors == old(transistors) && pullups == old(pullups)
    {
      report := [];
      while vias != []
        invariant report + Unhit(vias) == Unhit(old(vias))
        invariant State() == old(State()).(pool := vias)
        invariant transistors == old(transistors) && pullups == old(pullups)
        decreases |vias|
      {
        var via := vias[|vias| - 1];
        vias := vias[..|vias| - 1];
        report := report + [Text(via)];
      }
    }

    /** The buried contacts become the pending connectors; the record of consumed ones starts afresh. */
    method LoadContacts(contacts: seq<Node>)
      modifies this
      ensures State() == Pass(old(nodes), contacts, old(nextNode), [])
      ensures transistors == old(transistors) && pullups == old(pullups)
    {
      vias := contacts;
      taken := [];
    }

    /** The diffusion pass: every diffusion node takes a fresh id if it has none and is tagged by its rail. */
    method RetagDiffusion()
      requires Valid()
      modifies this
      ensures Valid()
      ensures (nodes, nextNode) == RetagPass(old(nodes), old(nextNode), diffStart, diffEnd)
      ensures vias == old(vias) && taken == old(taken)
      ensures transistors == old(transistors) && pullups == old(pullups)
    {
      var i := diffStart;
      while i < diffEnd
        invariant diffStart <= i <= diffEnd && Valid()
        invariant (nodes, nextNode) == RetagPass(old(nodes), old(nextNode), diffStart, i)
        invariant vias == old(vias) && taken == old(taken)
        invariant transistors == old(transistors) && pullups == old(pullups)
      {
        ghost var before := (nodes, nextNode);
        if nodes[i].id == 0 {
          nodes := nodes[i := nodes[i].(id := nextNode)];
          nextNode := nextNode + 1;
        }
        assert (nodes, nextNode) == Claim(before.0, i, before.1);
        if nodes[i].id == VCC {
          nodes := nodes[i := nodes[i].(layer := LAYER_DIFF_VCC)];
        }
        if nodes[i].id == GND {
          nodes := nodes[i := nodes[i].(layer := LAYER_DIFF_GND)];
        }
        assert (nodes, nextNode) == RetagStep(before.0, before.1, i);
        i := i + 1;
      }
    }

    /** The gate of outline t: the id of the first polysilicon node it collides with. */
    method GateOf(t: Node) returns (gate: Option<int>)
      requires Valid()
      ensures gate == Gate(nodes, t, polyStart, diffStart)
    {
      var hit := FirstCollider(t, polyStart, diffStart);
      gate := if hit.Some? then Some(nodes[hit.value].id) else None;
    }

    /** The ids of the diffusion nodes touching outline t nudged in the four directions, in node order. */
    method TerminalIds(t: Node) returns (diffs: seq<int>)
      requires Valid()
      ensures diffs == Diffs(nodes, t, diffStart, diffEnd)
    {
      var t1, t2, t3, t4 := Probe(t, -4, 0), Probe(t, 2, 0), Probe(t, 0, -4), Probe(t, 0, 2);
      diffs := [];
      var j := diffStart;
      while j < diffEnd
        invariant diffStart <= j <= diffEnd
        invariant diffs == Diffs(nodes, t, diffStart, j)
      {
        var sub := nodes[j];
        if Collide(sub, t1) || Collide(sub, t2) || Collide(sub, t3) || Collide(sub, t4) {
          diffs := diffs + [sub.id];
        }
        j := j + 1;
      }
    }

    /** Marks every metal, polysilicon and diffusion node on net g as pulled up. */
    method MarkNet(g: int)
      requires Valid()
      modifies this
      ensures Valid()
      ensures nodes == MarkPullups(old(nodes), g, metalStart, diffEnd)
      ensures vias == old(vias) && taken == old(taken) && nextNode == old(nextNode)
      ensures transistors == old(transistors) && pullups == old(pullups)
    {
      ghost var n0 := nodes;
      var j := metalStart;
      while j < diffEnd
        invariant metalStart <= j <= diffEnd && Valid()
        invariant nodes == MarkPullups(n0, g, metalStart, j)
        invariant vias == old(vias) && taken == old(taken) && nextNode == old(nextNode)
        invariant transistors == old(transistors) && pullups == old(pullups)
      {
        if nodes[j].id == g {
          nodes := nodes[j := nodes[j].(pullup := '+')];
        }
        j := j + 1;
      }
    }

    /**
     * One transistor: it takes the next id; a pull-up (gate tied to one
     * terminal, the other on VCC, gate not GND) marks its gate net, gives
     * the id back and is recorded with id 0.
     */
    method ClassifyOne(t: Node)
      requires Valid()
      modifies this
      ensures Valid()
      ensures Tally(nodes, transistors, nextNode, pullups)
           == ClassifyStep(Tally(old(nodes), old(transistors), old(nextNode), old(pullups)), t, Layout())
      ensures vias == old(vias) && taken == old(taken)
    {
      var id := nextNode;
      nextNode := nextNode + 1;
      var gate := GateOf(t);
      var diffs := TerminalIds(t);
      var (c1, c2, pull) := Terminals(diffs, gate);
      if pull {
        MarkNet(gate.value);
        id := 0;
        nextNode := nextNode - 1;
        pullups := pullups + 1;
      }
      transistors := transistors + [Transistor(t.(id := id), gate, c1, c2)];
    }

    /** The transistor loop: ids restart at 10000 and the outlines are classified in order. */
    method ClassifyAll(ts: seq<Node>)
      requires Valid()
      modifies this
      ensures Valid()
      ensures Tally(nodes, transistors, nextNode, pullups) == Classify(Tally(old(nodes), [], VCC, 0), ts, Layout())
      ensures vias == old(vias) && taken == old(taken)
    {
      ghost var s0 := Tally(nodes, [], VCC, 0);
      nextNode := VCC;
      transistors := [];
      pullups := 0;
      var i := 0;
      while i < |ts|
        invariant 0 <= i <= |ts| && Valid()
        invariant Tally(nodes, transistors, nextNode, pullups) == Classify(s0, ts[..i], Layout())
        invariant vias == old(vias) && taken == old(taken)
      {
        assert ts[..i + 1][..i] == ts[..i];
        ClassifyOne(ts[i]);
        i := i + 1;
      }
      assert ts[..i] == ts;
    }

    /** Every transistor is moved back by (-1, -1) and its box recomputed. */
    method SettleAll()
      modifies this
      ensures |transistors| == |old(transistors)|
      ensures forall k :: 0 <= k < |transistors| ==> transistors[k] == Settle(old(transistors)[k])
      ensures State() == old(State()) && pullups == old(pullups)
    {
      var i := 0;
      while i < |transistors|
        invariant 0 <= i <= |transistors| == |old(transistors)|
        invariant forall k :: 0 <= k < i ==> transistors[k] == Settle(old(transistors)[k])
        invariant forall k :: i <= k < |transistors| ==> transistors[k] == old(transistors)[k]
        invariant State() == old(State()) && pullups == old(pullups)
      {
        transistors := transistors[i := Settle(transistors[i])];
        i := i + 1;
      }
    }

    /** The transistor table, pull-ups skipped. */
    method TransistorTable() returns (rows: seq<TransRow>)
      ensures rows == KeptRows(transistors)
    {
      rows := [];
      var i := 0;
      while i < |transistors|
        invariant 0 <= i <= |transistors|
        invariant rows == KeptRows(transistors[..i])
      {
        assert transistors[..i + 1][..i] == transistors[..i];
        if transistors[i].shape.id != 0 {
          rows := rows + [Row(transistors[i])];
        }
        i := i + 1;
      }
      assert transistors[..i] == transistors;
    }

    /** The segment table: every node but the two planes. */
    method SegmentTable() returns (rows: seq<SegRow>)
      ensures rows == SegRows(nodes)
    {
      rows := [];
      var i := 2;
      while i < |nodes|
        invariant 2 <= i <= |nodes| || (|nodes| <= 2 && i == 2)
        invariant |rows| == i - 2
        invariant forall q :: 0 <= q < |rows| ==>
                    rows[q] == SegRow(nodes[q + 2].id, nodes[q + 2].pullup, nodes[q + 2].layer, Text(nodes[q + 2]))
      {
        rows := rows + [SegRow(nodes[i].id, nodes[i].pullup, nodes[i].layer, Text(nodes[i]))];
        i := i + 1;
      }
    }
  }
}
