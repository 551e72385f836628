/**
 * The via and buried-contact audit: the same five layers are loaded as for
 * the netlist, then every via and every buried contact is checked by
 * counting the nodes it collides with. A connector that touches exactly two
 * nodes is sound; one touching a single node goes nowhere; any other count,
 * none included, is reported as touching too many.
 */
module Audit {
  import opened Wrappers
  import opened Geometry
  import opened Loader
  import opened Connectivity
  import opened Netlist

  /** What the audit says about one connector. */
  datatype Verdict = Sound | Nowhere | Crowded(hits: nat)

  /** A line of the audit: the connector's position in its file, its coordinates and its verdict. */
  datatype Complaint = Complaint(index: nat, text: seq<int>, verdict: Verdict)

  /** The two reports of the audit. */
  datatype AuditReport = AuditReport(vias: seq<Complaint>, contacts: seq<Complaint>)

  /** The verdict for a connector colliding with `hits` nodes. */
  function Judge(hits: nat): (v: Verdict)
    ensures v == Sound <==> hits == 2
    ensures v == Nowhere <==> hits == 1
    ensures v.Crowded? <==> hits != 1 && hits != 2
    ensures v.Crowded? ==> v.hits == hits
  {
    if hits == 2 then Sound
    else if hits == 1 then Nowhere
    else Crowded(hits)
  }

  /** The number of nodes at indices `lo .. hi - 1` that collide with `c`. */
  function Hits(nodes: seq<Node>, c: Node, lo: nat, hi: nat): (n: nat)
    requires hi <= |nodes|
    ensures lo <= hi ==> n <= hi - lo
    ensures lo >= hi ==> n == 0
    decreases hi - lo
  {
    if lo >= hi then 0
    else (if Collide(nodes[lo], c) then 1 else 0) + Hits(nodes, c, lo + 1, hi)
  }

  /** The indices of the range whose nodes collide with `c`. */
  function Colliders(nodes: seq<Node>, c: Node, lo: nat, hi: nat): set<nat>
    requires hi <= |nodes|
  {
    set k: nat | lo <= k < hi && Collide(nodes[k], c)
  }

  /** The count is the size of the set of colliding indices. */
  lemma {:induction false} HitsCountColliders(nodes: seq<Node>, c: Node, lo: nat, hi: nat)
    requires hi <= |nodes|
    ensures Hits(nodes, c, lo, hi) == |Colliders(nodes, c, lo, hi)|
    decreases hi - lo
  {
    if lo >= hi {
      assert Colliders(nodes, c, lo, hi) == {};
    } else {
      HitsCountColliders(nodes, c, lo + 1, hi);
      CollidersStep(nodes, c, lo, hi);
      var rest := Colliders(nodes, c, lo + 1, hi);
      if Collide(nodes[lo], c) {
        assert |{lo} + rest| == 1 + |rest|;
      }
    }
  }

  /** The colliding indices of a range are those of its tail, plus its first index when that node collides. */
  lemma CollidersStep(nodes: seq<Node>, c: Node, lo: nat, hi: nat)
    requires lo < hi <= |nodes|
    ensures lo !in Colliders(nodes, c, lo + 1, hi)
    ensures Collide(nodes[lo], c) ==> Colliders(nodes, c, lo, hi) == {lo} + Colliders(nodes, c, lo + 1, hi)
    ensures !Collide(nodes[lo], c) ==> Colliders(nodes, c, lo, hi) == Colliders(nodes, c, lo + 1, hi)
  {
    var all, rest := Colliders(nodes, c, lo, hi), Colliders(nodes, c, lo + 1, hi);
    var first := Collide(nodes[lo], c);
    forall k | k in all
      ensures k in rest || (k == lo && first)
    {
    }
    forall k | k in rest
      ensures k in all
    {
    }
    if first {
      assert lo in all;
      assert all == {lo} + rest;
    } else {
      assert all == rest;
    }
  }

  /** Counting over two adjacent ranges adds up. */
  lemma {:induction false} HitsSplit(nodes: seq<Node>, c: Node, lo: nat, mid: nat, hi: nat)
    requires lo <= mid <= hi <= |nodes|
    ensures Hits(nodes, c, lo, hi) == Hits(nodes, c, lo, mid) + Hits(nodes, c, mid, hi)
    decreases mid - lo
  {
    if lo < mid {
      HitsSplit(nodes, c, lo + 1, mid, hi);
    }
  }

  /**
   * A connector no node of the range collides with is one the netlist's
   * passes over that range never place, and a connector with a collider is
   * one they do place.
   */
  lemma {:induction false} HitsNone(nodes: seq<Node>, c: Node, lo: nat, hi: nat)
    requires hi <= |nodes|
    ensures Hits(nodes, c, lo, hi) == 0 <==> FirstHit(nodes, c, lo, hi).None?
    decreases hi - lo
  {
    if lo < hi {
      HitsNone(nodes, c, lo + 1, hi);
    }
  }

  /** Counts the nodes of a range that collide with one connector. */
  method CountHits(nodes: seq<Node>, c: Node, lo: nat, hi: nat) returns (hits: nat)
    requires lo <= hi <= |nodes|
    ensures hits == Hits(nodes, c, lo, hi)
  {
    hits := 0;
    var j := lo;
    while j < hi
      invariant lo <= j <= hi
      invariant hits + Hits(nodes, c, j, hi) == Hits(nodes, c, lo, hi)
    {
      if Collide(nodes[j], c) {
        hits := hits + 1;
      }
      j := j + 1;
    }
  }

  /** The complaint about connector `i`: none exactly when it hits two nodes, else one naming it. */
  function Assess(nodes: seq<Node>, conns: seq<Node>, i: nat, lo: nat, hi: nat): (r: seq<Complaint>)
    requires i < |conns| && hi <= |nodes|
    ensures r == [] <==> Hits(nodes, conns[i], lo, hi) == 2
    ensures |r| <= 1 && (r != [] ==> r[0].index == i && r[0].text == Text(conns[i]))
  {
    var v := Judge(Hits(nodes, conns[i], lo, hi));
    if v == Sound then [] else [Complaint(i, Text(conns[i]), v)]
  }

  /** The complaints about the connectors in file order, each counted over nodes `lo .. hi - 1`. */
  function Complaints(nodes: seq<Node>, conns: seq<Node>, lo: nat, hi: nat): (r: seq<Complaint>)
    requires hi <= |nodes|
    ensures |r| <= |conns|
    decreases |conns|
  {
    if conns == [] then []
    else Complaints(nodes, conns[..|conns| - 1], lo, hi) + Assess(nodes, conns, |conns| - 1, lo, hi)
  }

  /** Every complaint is the verdict on the connector it names, which is not sound. */
  predicate Justified(nodes: seq<Node>, conns: seq<Node>, lo: nat, hi: nat, r: seq<Complaint>)
    requires hi <= |nodes|
  {
    forall q :: 0 <= q < |r| ==>
      && r[q].index < |conns|
      && r[q].verdict == Judge(Hits(nodes, conns[r[q].index], lo, hi)) != Sound
      && r[q].text == Text(conns[r[q].index])
  }

  /** Every connector that is not sound is named by a complaint. */
  predicate Complete(nodes: seq<Node>, conns: seq<Node>, lo: nat, hi: nat, r: seq<Complaint>)
    requires hi <= |nodes|
  {
    forall i :: 0 <= i < |conns| && Hits(nodes, conns[i], lo, hi) != 2 ==> exists q :: 0 <= q < |r| && r[q].index == i
  }

  /** Complaints come in file order, each connector at most once. */
  predicate InFileOrder(r: seq<Complaint>) {
    forall p, q :: 0 <= p < q < |r| ==> r[p].index < r[q].index
  }

  /** Every complaint is about a connector of the file that is not sound. */
  lemma {:induction false} ComplaintsJustified(nodes: seq<Node>, conns: seq<Node>, lo: nat, hi: nat, r: seq<Complaint>)
    requires hi <= |nodes| && r == Complaints(nodes, conns, lo, hi)
    ensures Justified(nodes, conns, lo, hi, r)
    decreases |conns|
  {
    if conns != [] {
      var init := conns[..|conns| - 1];
      var head := Complaints(nodes, init, lo, hi);
      ComplaintsJustified(nodes, init, lo, hi, head);
      assert r == head + Assess(nodes, conns, |conns| - 1, lo, hi);
      forall q | 0 <= q < |head|
        ensures conns[head[q].index] == init[head[q].index]
      {
      }
    }
  }

  /** Every connector that is not sound is the subject of a complaint. */
  lemma {:induction false} ComplaintsComplete(nodes: seq<Node>, conns: seq<Node>, lo: nat, hi: nat, r: seq<Complaint>)
    requires hi <= |nodes| && r == Complaints(nodes, conns, lo, hi)
    ensures Complete(nodes, conns, lo, hi, r)
    decreases |conns|
  {
    if conns != [] {
      var init := conns[..|conns| - 1];
      var head := Complaints(nodes, init, lo, hi);
      ComplaintsComplete(nodes, init, lo, hi, head);
      var last := |conns| - 1;
      assert r == head + Assess(nodes, conns, last, lo, hi);
      forall i | 0 <= i < |conns| && Hits(nodes, conns[i], lo, hi) != 2
        ensures exists q :: 0 <= q < |r| && r[q].index == i
      {
        if i == last {
          assert r[|head|].index == i;
        } else {
          assert init[i] == conns[i];
          var q :| 0 <= q < |head| && head[q].index == i;
          assert r[q].index == i;
        }
      }
    }
  }

  /** The complaints follow the file order of their connectors. */
  lemma {:induction false} ComplaintsOrdered(nodes: seq<Node>, conns: seq<Node>, lo: nat, hi: nat, r: seq<Complaint>)
    requires hi <= |nodes| && r == Complaints(nodes, conns, lo, hi)
    ensures InFileOrder(r)
    decreases |conns|
  {
    if conns != [] {
      var init := conns[..|conns| - 1];
      var head := Complaints(nodes, init, lo, hi);
      ComplaintsOrdered(nodes, init, lo, hi, head);
      ComplaintsJustified(nodes, init, lo, hi, head);
      assert r == head + Assess(nodes, conns, |conns| - 1, lo, hi);
      assert forall q :: 0 <= q < |head| ==> head[q].index < |conns| - 1;
    }
  }

  /**
   * Checks every connector against nodes `lo .. hi - 1`, appending a
   * complaint for each one that does not touch exactly two nodes.
   */
  method CheckConnectors(nodes: seq<Node>, conns: seq<Node>, lo: nat, hi: nat) returns (report: seq<Complaint>)
    requires lo <= hi <= |nodes|
    ensures report == Complaints(nodes, conns, lo, hi)
  {
    report := [];
    var i := 0;
    while i < |conns|
      invariant 0 <= i <= |conns|
      invariant report == Complaints(nodes, conns[..i], lo, hi)
    {
      var hits := CountHits(nodes, conns[i], lo, hi);
      assert conns[..i + 1][..i] == conns[..i];
      assert Assess(nodes, conns[..i + 1], i, lo, hi) == Assess(nodes, conns, i, lo, hi);
      if hits != 2 {
        report := report + [Complaint(i, Text(conns[i]), Judge(hits))];
      }
      i := i + 1;
    }
    assert conns[..i] == conns;
  }

  /** The seven files the audit reads: five layers, then the vias and the buried contacts. */
  datatype AuditFiles = AuditFiles(vcc: seq<Token>, gnd: seq<Token>, metal: seq<Token>, poly: seq<Token>, diff: seq<Token>,
                                   vias: seq<Token>, contacts: seq<Token>)

  /**
   * Every file closes only non-empty polygons and every line holds a full
   * pair: the audit's reader never checks what it parsed.
   */
  predicate Parsable(f: AuditFiles) {
    && WellFormed(f.vcc) && WellFormed(f.gnd) && WellFormed(f.metal) && WellFormed(f.poly) && WellFormed(f.diff)
    && WellFormed(f.vias) && WellFormed(f.contacts)
    && Garbled !in f.vcc && Garbled !in f.gnd && Garbled !in f.metal && Garbled !in f.poly && Garbled !in f.diff
    && Garbled !in f.vias && Garbled !in f.contacts
  }

  /**
   * What the audit reports: vias are counted against every node up to the
   * end of diffusion, the two power planes included; buried contacts only
   * against polysilicon and diffusion.
   */
  function Inspection(f: AuditFiles): (r: Result<AuditReport, LoadError>)
    requires Parsable(f)
    ensures r.Err? ==> r.error != Unreadable
    ensures r.Ok? ==> var vias := Load(f.vias, LAYER_SPECIAL, []); vias.Ok? && |r.value.vias| <= |vias.value|
    ensures r.Ok? ==> var contacts := Load(f.contacts, LAYER_SPECIAL, []); contacts.Ok? && |r.value.contacts| <= |contacts.value|
  {
    var chip := Assemble(f.vcc, f.gnd, f.metal, f.poly, f.diff);
    if chip.Err? then Err(chip.error)
    else
      var c := chip.value;
      var vias := Load(f.vias, LAYER_SPECIAL, []);
      var contacts := Load(f.contacts, LAYER_SPECIAL, []);
      Ok(AuditReport(Complaints(c.nodes, vias.value, 0, c.diffEnd),
                     Complaints(c.nodes, contacts.value, c.polyStart, c.diffEnd)))
  }

  /** Runs the audit: load the layers and the connectors, then check vias and buried contacts. */
  method Inspect(f: AuditFiles) returns (r: Result<AuditReport, LoadError>)
    requires Parsable(f)
    ensures r == Inspection(f)
  {
    var chip := LoadChip(f.vcc, f.gnd, f.metal, f.poly, f.diff);
    if chip.Err? {
      return Err(chip.error);
    }
    var c := chip.value;
    var vias := ReadNodes(f.vias, LAYER_SPECIAL);
    var contacts := ReadNodes(f.contacts, LAYER_SPECIAL);
    var viaReport := CheckConnectors(c.nodes, vias.value, 0, c.diffEnd);
    var contactReport := CheckConnectors(c.nodes, contacts.value, c.polyStart, c.diffEnd);
    return Ok(AuditReport(viaReport, contactReport));
  }

  /**
   * The audit fails only on a power plane that does not hold exactly one
   * polygon, the VCC plane checked first.
   */
  lemma InspectionFails(f: AuditFiles)
    requires Parsable(f)
    ensures Inspection(f).Err? <==> Sentinels(f.vcc) != 1 || Sentinels(f.gnd) != 1
    ensures Inspection(f) == Err(VccPlaneCount) <==> Sentinels(f.vcc) != 1
    ensures Inspection(f) == Err(GndPlaneCount) <==> Sentinels(f.vcc) == 1 && Sentinels(f.gnd) != 1
  {
    assert Garbled !in f.vcc + f.gnd + f.metal + f.poly + f.diff by {
      var all := f.vcc + f.gnd + f.metal + f.poly + f.diff;
      assert forall t :: t in all ==> t in f.vcc || t in f.gnd || t in f.metal || t in f.poly || t in f.diff;
    }
  }

  /**
   * A report of a successful audit names exactly the vias and buried
   * contacts that do not touch two nodes, in file order, each with its
   * hit count over the range its kind is checked against.
   */
  lemma InspectionExact(f: AuditFiles, a: AuditReport)
    requires Parsable(f) && Inspection(f) == Ok(a)
    ensures var c := Assemble(f.vcc, f.gnd, f.metal, f.poly, f.diff).value;
            var vias := Load(f.vias, LAYER_SPECIAL, []).value;
            var contacts := Load(f.contacts, LAYER_SPECIAL, []).value;
            && Justified(c.nodes, vias, 0, c.diffEnd, a.vias) && Complete(c.nodes, vias, 0, c.diffEnd, a.vias)
            && InFileOrder(a.vias)
            && Justified(c.nodes, contacts, c.polyStart, c.diffEnd, a.contacts)
            && Complete(c.nodes, contacts, c.polyStart, c.diffEnd, a.contacts)
            && InFileOrder(a.contacts)
  {
    var c := Assemble(f.vcc, f.gnd, f.metal, f.poly, f.diff).value;
    var vias := Load(f.vias, LAYER_SPECIAL, []).value;
    var contacts := Load(f.contacts, LAYER_SPECIAL, []).value;
    ComplaintsJustified(c.nodes, vias, 0, c.diffEnd, a.vias);
    ComplaintsComplete(c.nodes, vias, 0, c.diffEnd, a.vias);
    ComplaintsOrdered(c.nodes, vias, 0, c.diffEnd, a.vias);
    ComplaintsJustified(c.nodes, contacts, c.polyStart, c.diffEnd, a.contacts);
    ComplaintsComplete(c.nodes, contacts, c.polyStart, c.diffEnd, a.contacts);
    ComplaintsOrdered(c.nodes, contacts, c.polyStart, c.diffEnd, a.contacts);
  }

  /**
   * A via's count over the whole chip splits into the two power planes,
   * metal, and the polysilicon and diffusion range buried contacts are
   * counted over.
   */
  lemma ViaHitsSplit(c: Chip, v: Node)
    requires ChipLayout(c)
    ensures Hits(c.nodes, v, 0, c.diffEnd)
         == Hits(c.nodes, v, 0, 2) + Hits(c.nodes, v, 2, c.polyStart) + Hits(c.nodes, v, c.polyStart, c.diffEnd)
  {
    HitsSplit(c.nodes, v, 0, 2, c.diffEnd);
    HitsSplit(c.nodes, v, 2, c.polyStart, c.diffEnd);
  }
}
