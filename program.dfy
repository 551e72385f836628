/**
 * The extraction program end to end: load the five layer files, the vias,
 * the buried contacts and the transistor outlines; run the power planes,
 * the metal pass, the polysilicon pass, the diffusion pass and the
 * transistor loop in order; write the transistor table, the segment table
 * and the two reports of connectors that hit nothing.
 *
 * Phases is the pure specification of the run and Extract the program
 * proved against it; the lemmas state what the outputs promise: every
 * segment has an id, the layer tags follow the rails, the transistor table
 * is numbered 10000, 10001, ... without gaps, and every connector is either
 * consumed or reported.
 */
module Program {
  import opened Wrappers
  import opened Geometry
  import opened Loader
  import opened Connectivity
  import opened Devices
  import opened Netlist

  /** The input files, each as its lines. */
  datatype Files = Files(vcc: seq<Token>, gnd: seq<Token>, metal: seq<Token>, poly: seq<Token>, diff: seq<Token>,
                         vias: seq<Token>, contacts: seq<Token>, transistors: seq<Token>)

  predicate FilesWellFormed(f: Files) {
    && WellFormed(f.vcc) && WellFormed(f.gnd) && WellFormed(f.metal) && WellFormed(f.poly) && WellFormed(f.diff)
    && WellFormed(f.vias) && WellFormed(f.contacts) && WellFormed(f.transistors)
  }

  /** What the program writes: the two tables, the pull-up count, and the unhit vias and buried contacts. */
  datatype Outcome = Outcome(transRows: seq<TransRow>, segRows: seq<SegRow>, pullups: nat,
                             unhitVias: seq<seq<int>>, unhitContacts: seq<seq<int>>)

  /** The states the run passes through: after the metal pass, after the polysilicon pass, after the diffusion pass, after the transistor loop. */
  datatype Trace = Trace(metal: Pass, poly: Pass, retagged: seq<Node>, next: int, tally: Tally)

  function Layers(c: Chip): Ranges {
    Ranges(c.metalStart, c.polyStart, c.diffStart, c.diffEnd)
  }

  /** The two power planes and the metal pass, from the loaded chip and its vias. */
  function ViaPhase(c: Chip, vias: seq<Node>): (r: Pass)
    requires ChipLayout(c)
    ensures |r.nodes| == |c.nodes|
  {
    var s1 := PlanePass(Pass(c.nodes, vias, FIRST_FRESH, []), 0, VCC, c.polyStart, c.diffEnd);
    var s2 := PlanePass(s1, 1, GND, c.polyStart, c.diffEnd);
    JoinPass(s2, c.metalStart, c.polyStart, c.polyStart, c.diffEnd, false)
  }

  /** The polysilicon pass with the buried contacts, from the state the metal pass left. */
  function ContactPhase(c: Chip, s: Pass, contacts: seq<Node>): (r: Pass)
    requires ChipLayout(c) && |s.nodes| == |c.nodes|
    ensures |r.nodes| == |c.nodes|
  {
    JoinPass(Pass(s.nodes, contacts, s.next, []), c.polyStart, c.diffStart, c.diffStart, c.diffEnd, true)
  }

  function Phases(c: Chip, vias: seq<Node>, contacts: seq<Node>, ts: seq<Node>): (r: Trace)
    requires ChipLayout(c)
    ensures |r.tally.nodes| == |c.nodes|
  {
    var s3 := ViaPhase(c, vias);
    var s4 := ContactPhase(c, s3, contacts);
    var (n5, x5) := RetagPass(s4.nodes, s4.next, c.diffStart, c.diffEnd);
    Trace(s3, s4, n5, x5, Classify(Tally(n5, [], VCC, 0), ts, Layers(c)))
  }

  /** Every transistor moved back by (-1, -1). */
  function Settled(ds: seq<Transistor>): (r: seq<Transistor>)
    ensures |r| == |ds|
  {
    seq(|ds|, k requires 0 <= k < |ds| => Settle(ds[k]))
  }

  /**
   * The outputs of a run: at most one table row per transistor, one segment
   * row per node after the planes, and one report line per connector left
   * pending by the metal and the polysilicon pass.
   */
  function Written(tr: Trace): (r: Outcome)
    ensures |r.transRows| <= |tr.tally.done|
    ensures |r.segRows| == if |tr.tally.nodes| >= 2 then |tr.tally.nodes| - 2 else 0
    ensures |r.unhitVias| == |tr.metal.pool| && |r.unhitContacts| == |tr.poly.pool|
  {
    Outcome(KeptRows(Settled(tr.tally.done)), SegRows(tr.tally.nodes), tr.tally.pullups,
            Unhit(tr.metal.pool), Unhit(tr.poly.pool))
  }

  /**
   * What the program writes for the given files, or the error that stops
   * it: a run that succeeds writes at most one table row per transistor
   * outline read and one segment row per loaded node after the two planes.
   */
  function Run(f: Files): (r: Result<Outcome, LoadError>)
    requires FilesWellFormed(f)
    ensures r.Ok? ==> var ts := Load(f.transistors, LAYER_SPECIAL, []); ts.Ok? && |r.value.transRows| <= |ts.value|
    ensures r.Ok? ==> var c := Assemble(f.vcc, f.gnd, f.metal, f.poly, f.diff); c.Ok? && |r.value.segRows| == |c.value.nodes| - 2
  {
    var chip := Assemble(f.vcc, f.gnd, f.metal, f.poly, f.diff);
    var vias := Load(f.vias, LAYER_SPECIAL, []);
    var contacts := Load(f.contacts, LAYER_SPECIAL, []);
    var ts := Load(f.transistors, LAYER_SPECIAL, []);
    if chip.Err? then Err(chip.error)
    else if vias.Err? || contacts.Err? || ts.Err? then Err(Unreadable)
    else Ok(Written(Phases(chip.value, vias.value, contacts.value, ts.value)))
  }

  // ---------------------------------------------------------------------
  // The program
  // ---------------------------------------------------------------------

  /** Runs the whole extraction on one object, phase by phase, in the program's order. */
  method Extract(f: Files) returns (r: Result<Outcome, LoadError>)
    requires FilesWellFormed(f)
    ensures r == Run(f)
  {
    var chip := LoadChip(f.vcc, f.gnd, f.metal, f.poly, f.diff);
    if chip.Err? {
      return Err(chip.error);
    }
    var vias := ReadNodes(f.vias, LAYER_SPECIAL);
    if vias.Err? {
      return Err(Unreadable);
    }
    var c := chip.value;
    var e := new Extraction(c, vias.value);
    e.SeedPlane(0, VCC);
    e.SeedPlane(1, GND);
    e.ResolvePass(e.metalStart, e.polyStart, e.polyStart, e.diffEnd, false);
    ghost var s3 := e.State();
    assert s3 == ViaPhase(c, vias.value);
    var unhitVias := e.ReportUnhit();
    var contacts := ReadNodes(f.contacts, LAYER_SPECIAL);
    if contacts.Err? {
      return Err(Unreadable);
    }
    e.LoadContacts(contacts.value);
    e.ResolvePass(e.polyStart, e.diffStart, e.diffStart, e.diffEnd, true);
    ghost var s4 := e.State();
    assert s4 == ContactPhase(c, s3, contacts.value);
    var unhitContacts := e.ReportUnhit();
    e.RetagDiffusion();
    var ts := ReadNodes(f.transistors, LAYER_SPECIAL);
    if ts.Err? {
      return Err(Unreadable);
    }
    e.ClassifyAll(ts.value);
    ghost var tr := Phases(c, vias.value, contacts.value, ts.value);
    assert e.transistors == tr.tally.done && e.nodes == tr.tally.nodes && e.pullups == tr.tally.pullups;
    e.SettleAll();
    assert e.transistors == Settled(tr.tally.done);
    var transRows := e.TransistorTable();
    var segRows := e.SegmentTable();
    r := Ok(Outcome(transRows, segRows, e.pullups, unhitVias, unhitContacts));
  }

  // ---------------------------------------------------------------------
  // What the run promises
  // ---------------------------------------------------------------------

  /** Every node of a loaded chip is unassigned, so its ids are known for any counter. */
  lemma LoadedIdsKnown(c: Chip)
    requires ChipLayout(c)
    ensures IdsKnown(c.nodes, FIRST_FRESH)
    ensures forall k :: 0 <= k < |c.nodes| ==> c.nodes[k].id == 0
  {
    forall k | 0 <= k < |c.nodes|
      ensures c.nodes[k].id == 0
    {
      assert k < c.polyStart || c.polyStart <= k < c.diffStart || c.diffStart <= k < c.diffEnd;
    }
  }

  /**
   * After the planes and the metal pass, ids are known, only ids changed,
   * and the planes and every metal node are assigned.
   */
  lemma ViaPhaseIds(c: Chip, vias: seq<Node>, s3: Pass)
    requires ChipLayout(c) && s3 == ViaPhase(c, vias)
    ensures IdsKnown(s3.nodes, s3.next) && s3.next >= FIRST_FRESH
    ensures OnlyIdsChanged(c.nodes, s3.nodes)
    ensures forall k :: 0 <= k < c.polyStart ==> s3.nodes[k].id != 0
  {
    var s0 := Pass(c.nodes, vias, FIRST_FRESH, []);
    var s1 := PlanePass(s0, 0, VCC, c.polyStart, c.diffEnd);
    var s2 := PlanePass(s1, 1, GND, c.polyStart, c.diffEnd);
    LoadedIdsKnown(c);
    PlanePassIds(s0, 0, VCC, c.polyStart, c.diffEnd, s1);
    PlanePassIds(s1, 1, GND, c.polyStart, c.diffEnd, s2);
    JoinPassIds(s2, c.metalStart, c.polyStart, c.polyStart, c.diffEnd, false, s3);
    ChainOnlyIds(c.nodes, s1.nodes, s2.nodes);
    UnprotectedOnlyIds(s2, s3, c.metalStart, c.polyStart);
    ChainOnlyIds(c.nodes, s2.nodes, s3.nodes);
    RailsAssigned(s1, s2);
    MetalAssigned(s2, s3, c.polyStart);
  }

  /** After both plane passes the two plane nodes hold ids. */
  lemma RailsAssigned(s1: Pass, s2: Pass)
    requires 2 <= |s1.nodes| == |s2.nodes| && s1.nodes[0].id == VCC && s2.nodes[1].id == GND
    requires forall k :: 0 <= k < |s1.nodes| ==> s2.nodes[k].id == s1.nodes[k].id || s2.nodes[k].id == GND
    ensures s2.nodes[0].id != 0 && s2.nodes[1].id != 0
  {
  }

  /** A metal pass after the plane passes leaves every metal node with an id. */
  lemma MetalAssigned(s2: Pass, s3: Pass, polyStart: nat)
    requires 2 <= polyStart <= |s2.nodes| == |s3.nodes| && PassIds(s2, s3, 2, polyStart, false)
    requires s2.nodes[0].id != 0 && s2.nodes[1].id != 0
    ensures forall k :: 0 <= k < polyStart ==> s3.nodes[k].id != 0
  {
    forall k | 0 <= k < polyStart
      ensures s3.nodes[k].id != 0
    {
      if k < 2 {
        assert s2.nodes[k].id != 0;
      }
    }
  }

  /** Two steps that change only ids together change only ids. */
  lemma ChainOnlyIds(a: seq<Node>, b: seq<Node>, c: seq<Node>)
    requires OnlyIdsChanged(a, b) && OnlyIdsChanged(b, c)
    ensures OnlyIdsChanged(a, c)
  {
  }

  /** A join pass that does not protect changes only ids. */
  lemma UnprotectedOnlyIds(s: Pass, r: Pass, from: nat, until: nat)
    requires from <= until <= |s.nodes| && |r.nodes| == |s.nodes| && PassIds(s, r, from, until, false)
    ensures OnlyIdsChanged(s.nodes, r.nodes)
  {
    forall k | 0 <= k < |s.nodes|
      ensures r.nodes[k] == s.nodes[k].(id := r.nodes[k].id)
    {
      assert r.nodes[k] == s.nodes[k].(id := r.nodes[k].id, layer := r.nodes[k].layer);
    }
  }

  /** The planes and the metal pass lose no via: each is consumed or still pending. */
  lemma ViaPhaseConserves(c: Chip, vias: seq<Node>, s3: Pass)
    requires ChipLayout(c) && s3 == ViaPhase(c, vias)
    ensures multiset(s3.pool) + multiset(s3.taken) == multiset(vias)
  {
    var s0 := Pass(c.nodes, vias, FIRST_FRESH, []);
    var s1 := PlanePass(s0, 0, VCC, c.polyStart, c.diffEnd);
    var s2 := PlanePass(s1, 1, GND, c.polyStart, c.diffEnd);
    PlanePassConserves(s0, 0, VCC, c.polyStart, c.diffEnd, s1);
    PlanePassConserves(s1, 1, GND, c.polyStart, c.diffEnd, s2);
    JoinPassConserves(s2, c.metalStart, c.polyStart, c.polyStart, c.diffEnd, false, s3);
  }

  /** The node facts the diffusion pass leaves for the transistor loop. */
  predicate Retagged(c: Chip, nodes: seq<Node>)
    requires ChipLayout(c)
  {
    && |nodes| == |c.nodes|
    && (forall k :: 0 <= k < |nodes| ==> nodes[k].id != 0)
    && (forall k :: 0 <= k < |nodes| ==> nodes[k] == c.nodes[k].(id := nodes[k].id, layer := nodes[k].layer))
    && (forall k :: 0 <= k < c.polyStart ==> nodes[k].layer == LAYER_METAL)
    && (forall k :: c.polyStart <= k < c.diffStart ==> nodes[k].layer == LAYER_POLY || nodes[k].layer == LAYER_PROTECT)
    && (forall k :: c.diffStart <= k < c.diffEnd ==>
          nodes[k].layer == if nodes[k].id == VCC then LAYER_DIFF_VCC else if nodes[k].id == GND then LAYER_DIFF_GND else LAYER_DIFF)
  }

  /** The polysilicon and diffusion passes, from the metal pass's facts to Retagged. */
  lemma RetagFacts(c: Chip, s3: Pass, contacts: seq<Node>, s4: Pass, n5: seq<Node>, x5: int)
    requires ChipLayout(c) && |s3.nodes| == |c.nodes|
    requires IdsKnown(s3.nodes, s3.next) && s3.next >= FIRST_FRESH
    requires OnlyIdsChanged(c.nodes, s3.nodes)
    requires forall k :: 0 <= k < c.polyStart ==> s3.nodes[k].id != 0
    requires s4 == ContactPhase(c, s3, contacts)
    requires (n5, x5) == RetagPass(s4.nodes, s4.next, c.diffStart, c.diffEnd)
    ensures Retagged(c, n5)
  {
    var s := Pass(s3.nodes, contacts, s3.next, []);
    JoinPassIds(s, c.polyStart, c.diffStart, c.diffStart, c.diffEnd, true, s4);
    RetagPassIds(s4.nodes, s4.next, c.diffStart, c.diffEnd, n5, x5);
    RetagPassLayers(s4.nodes, s4.next, c.diffStart, c.diffEnd, n5, x5);
    forall k | 0 <= k < c.diffStart
      ensures n5[k] == s4.nodes[k]
    {
    }
    forall k | 0 <= k < |n5|
      ensures n5[k].id != 0
    {
      if k < c.polyStart {
        assert s3.nodes[k].id != 0;
      }
    }
  }

  /** What the run promises about the node list it writes. */
  predicate Finished(c: Chip, nodes: seq<Node>, done: seq<Transistor>)
    requires ChipLayout(c)
  {
    && |nodes| == |c.nodes|
    && (forall k :: 0 <= k < |nodes| ==> nodes[k].id != 0)
    && (forall k :: 0 <= k < |nodes| ==> nodes[k].poly == c.nodes[k].poly && nodes[k].bbox == c.nodes[k].bbox)
    && (forall k :: 0 <= k < c.polyStart ==> nodes[k].layer == LAYER_METAL)
    && (forall k :: c.polyStart <= k < c.diffStart ==> nodes[k].layer == LAYER_POLY || nodes[k].layer == LAYER_PROTECT)
    && (forall k :: c.diffStart <= k < c.diffEnd ==>
          nodes[k].layer == if nodes[k].id == VCC then LAYER_DIFF_VCC else if nodes[k].id == GND then LAYER_DIFF_GND else LAYER_DIFF)
    && (forall k :: 0 <= k < 2 ==> nodes[k].pullup == '-')
    && (forall k :: 2 <= k < |nodes| ==> (nodes[k].pullup == '+' <==> PulledBy(done, nodes[k].id)))
  }

  /**
   * At the end of the run every node is assigned and keeps its ring and
   * box; metal stays metal, polysilicon is polysilicon or protection,
   * diffusion is tagged by the rail it is on; the planes are not pulled up
   * and any other node is pulled up exactly when it is on the gate net of a
   * discarded pull-up transistor.
   */
  lemma PhasesFinish(c: Chip, vias: seq<Node>, contacts: seq<Node>, ts: seq<Node>, tr: Trace)
    requires ChipLayout(c)
    requires tr.metal == ViaPhase(c, vias) && tr.poly == ContactPhase(c, tr.metal, contacts)
    requires (tr.retagged, tr.next) == RetagPass(tr.poly.nodes, tr.poly.next, c.diffStart, c.diffEnd)
    requires tr.tally == Classify(Tally(tr.retagged, [], VCC, 0), ts, Layers(c))
    ensures Finished(c, tr.tally.nodes, tr.tally.done)
  {
    ViaPhaseIds(c, vias, tr.metal);
    RetagFacts(c, tr.metal, contacts, tr.poly, tr.retagged, tr.next);
    LoopFinishes(c, tr.retagged, ts, tr.tally);
  }

  /** The transistor loop turns the diffusion pass's facts into the finished ones. */
  lemma LoopFinishes(c: Chip, n5: seq<Node>, ts: seq<Node>, t: Tally)
    requires ChipLayout(c) && Retagged(c, n5)
    requires t == Classify(Tally(n5, [], VCC, 0), ts, Layers(c))
    ensures Finished(c, t.nodes, t.done)
  {
    ClassifyMarks(Tally(n5, [], VCC, 0), ts, Layers(c));
    forall k | 0 <= k < |c.nodes|
      ensures n5[k].pullup == '-'
    {
      assert k < c.polyStart || c.polyStart <= k < c.diffStart || c.diffStart <= k < c.diffEnd;
    }
  }

  /** Moving transistors keeps their ids, so it keeps which ones are written. */
  lemma {:induction false} KeptSameIds(a: seq<Transistor>, b: seq<Transistor>)
    requires |a| == |b| && forall k :: 0 <= k < |a| ==> a[k].shape.id == b[k].shape.id
    ensures Kept(a) == Kept(b)
    decreases |a|
  {
    if a != [] {
      KeptSameIds(a[..|a| - 1], b[..|b| - 1]);
    }
  }

  /**
   * The transistor table is numbered 10000, 10001, ... without gaps, and
   * its rows and the pull-ups together account for every outline.
   */
  lemma TallyNumbers(s: Tally, ts: seq<Node>, g: Ranges, t: Tally)
    requires RangesFit(g, |s.nodes|) && s == Tally(s.nodes, [], VCC, 0) && t == Classify(s, ts, g)
    ensures forall q :: 0 <= q < |KeptRows(Settled(t.done))| ==> KeptRows(Settled(t.done))[q].id == VCC + q
    ensures |KeptRows(Settled(t.done))| + t.pullups == |ts|
  {
    ClassifyNumbers(s, ts, g);
    SettledNumbers(t.done, VCC);
  }

  /** Moving the transistors keeps the numbering of the table. */
  lemma SettledNumbers(done: seq<Transistor>, base: int)
    requires base > 0
    requires forall k :: 0 <= k < |done| ==> done[k].shape.id == 0 || done[k].shape.id == base + Kept(done[..k])
    ensures forall q :: 0 <= q < |KeptRows(Settled(done))| ==> KeptRows(Settled(done))[q].id == base + q
    ensures |KeptRows(Settled(done))| == Kept(done)
  {
    var settled := Settled(done);
    forall k | 0 <= k < |settled|
      ensures settled[k].shape.id == 0 || settled[k].shape.id == base + Kept(settled[..k])
    {
      KeptSameIds(settled[..k], done[..k]);
    }
    KeptRowsNumbered(settled, base);
    KeptRowsCount(settled);
    KeptSameIds(settled, done);
  }

  /** Every line of the report is the text of a connector that was read, and there are no more lines than connectors. */
  predicate Reported(read: seq<Node>, report: seq<seq<int>>) {
    && |report| <= |read|
    && forall q :: 0 <= q < |report| ==> LineOf(read, report[q])
  }

  /** `line` is the text of a connector that was read. */
  predicate LineOf(read: seq<Node>, line: seq<int>) {
    exists v :: v in read && line == Text(v)
  }

  /**
   * A pool that together with the consumed connectors makes up the
   * connectors read is reported one line per pending connector.
   */
  lemma PoolReported(read: seq<Node>, pool: seq<Node>, taken: seq<Node>)
    requires multiset(pool) + multiset(taken) == multiset(read)
    ensures |Unhit(pool)| == |pool|
    ensures Reported(read, Unhit(pool))
  {
    UnhitAt(pool);
    var report := Unhit(pool);
    assert |multiset(pool)| + |multiset(taken)| == |multiset(read)|;
    assert |report| <= |read|;
    forall q | 0 <= q < |report|
      ensures LineOf(read, report[q])
    {
      var v := pool[|pool| - 1 - q];
      assert v in multiset(pool);
      assert v in multiset(read);
      assert v in read && report[q] == Text(v);
    }
    assert Reported(read, report);
  }

  /** The chip, connectors, outlines and trace of a run that succeeds. */
  lemma RunTrace(f: Files, o: Outcome) returns (c: Chip, vias: seq<Node>, contacts: seq<Node>, ts: seq<Node>, tr: Trace)
    requires FilesWellFormed(f) && Run(f) == Ok(o)
    ensures ChipLayout(c) && Assemble(f.vcc, f.gnd, f.metal, f.poly, f.diff) == Ok(c)
    ensures Load(f.vias, LAYER_SPECIAL, []) == Ok(vias) && Load(f.contacts, LAYER_SPECIAL, []) == Ok(contacts)
    ensures Load(f.transistors, LAYER_SPECIAL, []) == Ok(ts)
    ensures tr.metal == ViaPhase(c, vias) && tr.poly == ContactPhase(c, tr.metal, contacts)
    ensures (tr.retagged, tr.next) == RetagPass(tr.poly.nodes, tr.poly.next, c.diffStart, c.diffEnd)
    ensures tr.tally == Classify(Tally(tr.retagged, [], VCC, 0), ts, Layers(c))
    ensures o == Written(tr)
  {
    c := Assemble(f.vcc, f.gnd, f.metal, f.poly, f.diff).value;
    vias := Load(f.vias, LAYER_SPECIAL, []).value;
    contacts := Load(f.contacts, LAYER_SPECIAL, []).value;
    ts := Load(f.transistors, LAYER_SPECIAL, []).value;
    tr := Phases(c, vias, contacts, ts);
  }

  /** The polysilicon pass loses no buried contact: each is consumed or still pending. */
  lemma ContactPhaseConserves(c: Chip, metal: Pass, contacts: seq<Node>, poly: Pass)
    requires ChipLayout(c) && |metal.nodes| == |c.nodes| && poly == ContactPhase(c, metal, contacts)
    ensures multiset(poly.pool) + multiset(poly.taken) == multiset(contacts)
  {
    var s := Pass(metal.nodes, contacts, metal.next, []);
    JoinPassConserves(s, c.polyStart, c.diffStart, c.diffStart, c.diffEnd, true, poly);
  }

  /** Every row of the segment table has an id, and its layer tag follows the layer it came from. */
  lemma RunSegments(f: Files, o: Outcome)
    requires FilesWellFormed(f) && Run(f) == Ok(o)
    ensures forall q :: 0 <= q < |o.segRows| ==> o.segRows[q].id != 0
    ensures forall q :: 0 <= q < |o.segRows| ==>
              o.segRows[q].layer in {LAYER_METAL, LAYER_POLY, LAYER_PROTECT, LAYER_DIFF, LAYER_DIFF_VCC, LAYER_DIFF_GND}
    ensures forall q :: 0 <= q < |o.segRows| && o.segRows[q].layer == LAYER_DIFF_VCC ==> o.segRows[q].id == VCC
    ensures forall q :: 0 <= q < |o.segRows| && o.segRows[q].layer == LAYER_DIFF_GND ==> o.segRows[q].id == GND
  {
    var c, vias, contacts, ts, tr := RunTrace(f, o);
    PhasesFinish(c, vias, contacts, ts, tr);
    FinishedRows(c, tr.tally.nodes, tr.tally.done);
  }

  /**
   * The segment rows of finished nodes: every row has an id, a rail tag only
   * on its rail, and the pull-up mark exactly when it is on the gate net of
   * a discarded pull-up.
   */
  lemma FinishedRows(c: Chip, nodes: seq<Node>, done: seq<Transistor>)
    requires ChipLayout(c) && Finished(c, nodes, done)
    ensures forall q :: 0 <= q < |SegRows(nodes)| ==> SegRows(nodes)[q].id != 0
    ensures forall q :: 0 <= q < |SegRows(nodes)| ==>
              SegRows(nodes)[q].layer in {LAYER_METAL, LAYER_POLY, LAYER_PROTECT, LAYER_DIFF, LAYER_DIFF_VCC, LAYER_DIFF_GND}
    ensures forall q :: 0 <= q < |SegRows(nodes)| && SegRows(nodes)[q].layer == LAYER_DIFF_VCC ==> SegRows(nodes)[q].id == VCC
    ensures forall q :: 0 <= q < |SegRows(nodes)| && SegRows(nodes)[q].layer == LAYER_DIFF_GND ==> SegRows(nodes)[q].id == GND
    ensures forall q :: 0 <= q < |SegRows(nodes)| ==> (SegRows(nodes)[q].pullup == '+' <==> PulledBy(done, SegRows(nodes)[q].id))
  {
    var rows := SegRows(nodes);
    forall q | 0 <= q < |rows|
      ensures rows[q].id != 0
      ensures rows[q].layer in {LAYER_METAL, LAYER_POLY, LAYER_PROTECT, LAYER_DIFF, LAYER_DIFF_VCC, LAYER_DIFF_GND}
      ensures rows[q].layer == LAYER_DIFF_VCC ==> rows[q].id == VCC
      ensures rows[q].layer == LAYER_DIFF_GND ==> rows[q].id == GND
      ensures rows[q].pullup == '+' <==> PulledBy(done, rows[q].id)
    {
      var k := q + 2;
      assert rows[q].id == nodes[k].id && rows[q].layer == nodes[k].layer && rows[q].pullup == nodes[k].pullup;
      assert k < c.polyStart || c.polyStart <= k < c.diffStart || c.diffStart <= k < c.diffEnd;
    }
  }

  /** The transistor table of a run is numbered 10000, 10001, ... without gaps, and with the pull-ups accounts for every outline read. */
  lemma RunNumbers(f: Files, o: Outcome)
    requires FilesWellFormed(f) && Run(f) == Ok(o)
    ensures forall q :: 0 <= q < |o.transRows| ==> o.transRows[q].id == VCC + q
    ensures |o.transRows| + o.pullups == |Load(f.transistors, LAYER_SPECIAL, []).value|
  {
    var c, vias, contacts, ts, tr := RunTrace(f, o);
    TallyNumbers(Tally(tr.retagged, [], VCC, 0), ts, Layers(c), tr.tally);
  }

  /** Every line of a run's two reports is the text of a via or buried contact it read, at most one line per connector. */
  lemma RunAccounts(f: Files, o: Outcome)
    requires FilesWellFormed(f) && Run(f) == Ok(o)
    ensures Reported(Load(f.vias, LAYER_SPECIAL, []).value, o.unhitVias)
    ensures Reported(Load(f.contacts, LAYER_SPECIAL, []).value, o.unhitContacts)
  {
    var c, vias, contacts, ts, tr := RunTrace(f, o);
    PhasesReport(c, vias, contacts, tr.metal, tr.poly);
  }

  /** The two reports of a run are of connectors it read. */
  lemma PhasesReport(c: Chip, vias: seq<Node>, contacts: seq<Node>, metal: Pass, poly: Pass)
    requires ChipLayout(c) && metal == ViaPhase(c, vias) && poly == ContactPhase(c, metal, contacts)
    ensures Reported(vias, Unhit(metal.pool)) && Reported(contacts, Unhit(poly.pool))
  {
    ViaPhaseConserves(c, vias, metal);
    ContactPhaseConserves(c, metal, contacts, poly);
    PoolReported(vias, metal.pool, metal.taken);
    PoolReported(contacts, poly.pool, poly.taken);
  }
}
