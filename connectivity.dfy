/**
 * The pure specification of the connectivity passes over the node list:
 * which connectors (vias, buried contacts) an outer node collides with, the
 * first inner node each connector hits, the id each hit gives or merges,
 * and the whole-list renumbering of a merge. The imperative passes in
 * module Netlist are proved against these functions; the lemmas here state
 * what the passes promise: no connector is lost, a merge leaves no node
 * with the old id, merging only ever joins nets, and ids stay nonzero.
 */
module Connectivity {
  import opened Wrappers
  import opened Geometry
  import opened Loader

  /** The reserved ids of the power and ground nets, and the first id handed out afresh. */
  const VCC: int := 10000
  const GND: int := 10001
  const FIRST_FRESH: int := 10002

  // ---------------------------------------------------------------------
  // What stays fixed while ids change
  // ---------------------------------------------------------------------

  /** The two lists have the same rings and boxes, node by node. */
  predicate SameShapes(a: seq<Node>, b: seq<Node>) {
    |a| == |b| && forall k :: 0 <= k < |a| ==> a[k].poly == b[k].poly && a[k].bbox == b[k].bbox
  }

  /** Only ids differ between the two lists. */
  predicate OnlyIdsChanged(a: seq<Node>, b: seq<Node>) {
    |a| == |b| && forall k :: 0 <= k < |a| ==> b[k] == a[k].(id := b[k].id)
  }

  /** Only ids and layer tags differ between the two lists. */
  predicate OnlyIdsAndLayersChanged(a: seq<Node>, b: seq<Node>) {
    |a| == |b| && forall k :: 0 <= k < |a| ==> b[k] == a[k].(id := b[k].id, layer := b[k].layer)
  }

  // ---------------------------------------------------------------------
  // Finding the hit node
  // ---------------------------------------------------------------------

  /** The index of the first node in [lo, hi) whose ring overlaps the connector c. */
  function FirstHit(nodes: seq<Node>, c: Node, lo: nat, hi: nat): (r: Option<nat>)
    requires hi <= |nodes|
    decreases hi - lo
    ensures r.Some? ==> lo <= r.value < hi
  {
    if lo >= hi then None
    else if Collide(nodes[lo], c) then Some(lo)
    else FirstHit(nodes, c, lo + 1, hi)
  }

  /**
   * The hit is the first colliding node of the range, and there is none
   * exactly when no node of the range collides.
   */
  lemma {:induction false} FirstHitIsFirst(nodes: seq<Node>, c: Node, lo: nat, hi: nat)
    requires hi <= |nodes|
    ensures var r := FirstHit(nodes, c, lo, hi);
            && (r.Some? ==> Collide(nodes[r.value], c) && forall k :: lo <= k < r.value ==> !Collide(nodes[k], c))
            && (r.None? <==> forall k :: lo <= k < hi ==> !Collide(nodes[k], c))
    decreases hi - lo
  {
    if lo < hi && !Collide(nodes[lo], c) {
      FirstHitIsFirst(nodes, c, lo + 1, hi);
    }
  }

  /** The hit depends on geometry only, so it survives any change of ids or layers. */
  lemma {:induction false} FirstHitShapes(a: seq<Node>, b: seq<Node>, c: Node, lo: nat, hi: nat)
    requires SameShapes(a, b) && hi <= |a|
    ensures FirstHit(a, c, lo, hi) == FirstHit(b, c, lo, hi)
    decreases hi - lo
  {
    if lo < hi {
      FirstHitShapes(a, b, c, lo + 1, hi);
      CollideShape(a[lo], b[lo], c);
      FirstHitAgree(a, b, c, lo, hi);
    }
  }

  /** Two scans that agree on their first node and on the rest agree. */
  lemma FirstHitAgree(a: seq<Node>, b: seq<Node>, c: Node, lo: nat, hi: nat)
    requires hi <= |a| && hi <= |b| && lo < hi
    requires Collide(a[lo], c) == Collide(b[lo], c)
    requires FirstHit(a, c, lo + 1, hi) == FirstHit(b, c, lo + 1, hi)
    ensures FirstHit(a, c, lo, hi) == FirstHit(b, c, lo, hi)
  {
  }

  lemma CollideShape(x: Node, y: Node, c: Node)
    requires x.poly == y.poly && x.bbox == y.bbox
    ensures Collide(x, c) == Collide(y, c)
  {
  }

  // ---------------------------------------------------------------------
  // Splitting the connector pool
  // ---------------------------------------------------------------------

  /** The connectors of pool that cur collides with, and the others, each in pool order. */
  function Split(pool: seq<Node>, cur: Node): (r: (seq<Node>, seq<Node>))
    ensures |r.0| + |r.1| == |pool|
  {
    if pool == [] then ([], [])
    else
      var (m, u) := Split(pool[..|pool| - 1], cur);
      var v := pool[|pool| - 1];
      if Collide(cur, v) then (m + [v], u) else (m, u + [v])
  }

  /** Splitting keeps every connector. */
  lemma {:induction false} SplitKeeps(pool: seq<Node>, cur: Node)
    ensures multiset(Split(pool, cur).0) + multiset(Split(pool, cur).1) == multiset(pool)
  {
    if pool != [] {
      var v := pool[|pool| - 1];
      assert pool == pool[..|pool| - 1] + [v];
      SplitKeeps(pool[..|pool| - 1], cur);
    }
  }

  /** Splitting puts every connector on the side its collision with cur says, and takes nothing new. */
  lemma {:induction false} SplitSides(pool: seq<Node>, cur: Node)
    ensures forall v :: v in Split(pool, cur).0 ==> v in pool && Collide(cur, v)
    ensures forall v :: v in Split(pool, cur).1 ==> v in pool && !Collide(cur, v)
  {
    if pool != [] {
      var v := pool[|pool| - 1];
      assert pool == pool[..|pool| - 1] + [v];
      SplitSides(pool[..|pool| - 1], cur);
    }
  }

  // ---------------------------------------------------------------------
  // Giving ids
  // ---------------------------------------------------------------------

  /** Every node holding `from` is given `into`; every other node keeps its id. */
  function Renumber(nodes: seq<Node>, from: int, into: int): (r: seq<Node>)
    ensures |r| == |nodes|
  {
    seq(|nodes|, k requires 0 <= k < |nodes| => if nodes[k].id == from then nodes[k].(id := into) else nodes[k])
  }

  /** Node by node: only the id changes, and only from `from` to `into`. */
  lemma RenumberAt(nodes: seq<Node>, from: int, into: int)
    ensures forall k :: 0 <= k < |nodes| ==>
              Renumber(nodes, from, into)[k] == if nodes[k].id == from then nodes[k].(id := into) else nodes[k]
  {
  }

  /**
   * After a merge from `from` into a different id `into`, no node holds
   * `from`, the nodes that held either id now share `into`, and nodes with
   * other ids are untouched.
   */
  lemma RenumberMerges(nodes: seq<Node>, from: int, into: int)
    requires from != into
    ensures forall k :: 0 <= k < |nodes| ==> Renumber(nodes, from, into)[k].id != from
    ensures forall k :: 0 <= k < |nodes| && nodes[k].id in {from, into} ==> Renumber(nodes, from, into)[k].id == into
    ensures forall k :: 0 <= k < |nodes| && nodes[k].id != from ==> Renumber(nodes, from, into)[k] == nodes[k]
  {
  }

  /** Who receives ids from a pass: a power plane (its rail id) or outer node `cur`. */
  datatype Target = Rail(rail: int) | Join(cur: nat)

  predicate TargetIn(t: Target, nodes: seq<Node>) {
    t.Join? ==> t.cur < |nodes|
  }

  /**
   * Inner node j was hit by a connector of the outer node `cur`: an
   * unassigned j takes cur's id; a j with another id absorbs cur's whole
   * net (every node holding cur's id takes j's id).
   */
  function Connect(nodes: seq<Node>, cur: nat, j: nat): (r: seq<Node>)
    requires cur < |nodes| && j < |nodes|
    ensures |r| == |nodes|
  {
    if nodes[j].id == 0 then nodes[j := nodes[j].(id := nodes[cur].id)]
    else if nodes[j].id != nodes[cur].id then Renumber(nodes, nodes[cur].id, nodes[j].id)
    else nodes
  }

  /**
   * The effect of a connector of target t hitting inner node j: j ends on
   * the rail, or on one net with the outer node.
   */
  function Apply(nodes: seq<Node>, t: Target, j: nat): (r: seq<Node>)
    requires TargetIn(t, nodes) && j < |nodes|
    ensures |r| == |nodes|
    ensures t.Rail? ==> r[j].id == t.rail
    ensures t.Join? ==> r[j].id == r[t.cur].id
  {
    match t
    case Rail(rail) => nodes[j := nodes[j].(id := rail)]
    case Join(cur) => Connect(nodes, cur, j)
  }

  lemma ApplyOnlyIds(nodes: seq<Node>, t: Target, j: nat)
    requires TargetIn(t, nodes) && j < |nodes|
    ensures OnlyIdsChanged(nodes, Apply(nodes, t, j))
  {
    if t.Join? && nodes[j].id != 0 && nodes[j].id != nodes[t.cur].id {
      RenumberAt(nodes, nodes[t.cur].id, nodes[j].id);
    }
  }

  /** The state after the matched connectors have been taken from the back one by one. */
  datatype Drained = Drained(nodes: seq<Node>, pool: seq<Node>, taken: seq<Node>)

  /**
   * Takes the matched connectors from the back: one that hits a node of
   * [lo, hi) is consumed (appended to `taken`) and applied; one that hits
   * nothing is carried (appended to `pool`).
   */
  function Drain(nodes: seq<Node>, t: Target, matched: seq<Node>, pool: seq<Node>, taken: seq<Node>, lo: nat, hi: nat): (r: Drained)
    requires TargetIn(t, nodes) && hi <= |nodes|
    ensures |r.nodes| == |nodes|
    decreases |matched|
  {
    if matched == [] then Drained(nodes, pool, taken)
    else
      var via := matched[|matched| - 1];
      var rest := matched[..|matched| - 1];
      match FirstHit(nodes, via, lo, hi)
      case None => Drain(nodes, t, rest, pool + [via], taken, lo, hi)
      case Some(j) => Drain(Apply(nodes, t, j), t, rest, pool, taken + [via], lo, hi)
  }

  // The lemmas below take the result they speak about as a parameter `d`
  // (or `r`) fixed by their first requires, so that their quantified
  // conclusions are about a plain name the caller also holds.

  /** Draining changes ids only. */
  lemma {:induction false} DrainOnlyIds(nodes: seq<Node>, t: Target, matched: seq<Node>, pool: seq<Node>, taken: seq<Node>, lo: nat, hi: nat, d: Drained)
    requires TargetIn(t, nodes) && hi <= |nodes| && d == Drain(nodes, t, matched, pool, taken, lo, hi)
    ensures OnlyIdsChanged(nodes, d.nodes)
    decreases |matched|
  {
    if matched != [] {
      var via := matched[|matched| - 1];
      var rest := matched[..|matched| - 1];
      match FirstHit(nodes, via, lo, hi)
      case None =>
        DrainOnlyIds(nodes, t, rest, pool + [via], taken, lo, hi, d);
      case Some(j) =>
        ApplyOnlyIds(nodes, t, j);
        DrainOnlyIds(Apply(nodes, t, j), t, rest, pool, taken + [via], lo, hi, d);
    }
  }

  /** No connector is lost: the matched connectors are split between the carried and the consumed ones. */
  lemma {:induction false} DrainKeeps(nodes: seq<Node>, t: Target, matched: seq<Node>, pool: seq<Node>, taken: seq<Node>, lo: nat, hi: nat, d: Drained)
    requires TargetIn(t, nodes) && hi <= |nodes| && d == Drain(nodes, t, matched, pool, taken, lo, hi)
    ensures multiset(d.pool) + multiset(d.taken) == multiset(pool) + multiset(taken) + multiset(matched)
    decreases |matched|
  {
    if matched != [] {
      var via := matched[|matched| - 1];
      var rest := matched[..|matched| - 1];
      assert matched == rest + [via];
      match FirstHit(nodes, via, lo, hi)
      case None =>
        DrainKeeps(nodes, t, rest, pool + [via], taken, lo, hi, d);
      case Some(j) =>
        DrainKeeps(Apply(nodes, t, j), t, rest, pool, taken + [via], lo, hi, d);
    }
  }

  /** What was carried or consumed before draining stays in place at the front. */
  lemma {:induction false} DrainAppends(nodes: seq<Node>, t: Target, matched: seq<Node>, pool: seq<Node>, taken: seq<Node>, lo: nat, hi: nat, d: Drained)
    requires TargetIn(t, nodes) && hi <= |nodes| && d == Drain(nodes, t, matched, pool, taken, lo, hi)
    ensures |pool| <= |d.pool| && |taken| <= |d.taken|
    ensures d.pool[..|pool|] == pool && d.taken[..|taken|] == taken
    decreases |matched|
  {
    if matched != [] {
      var via := matched[|matched| - 1];
      var rest := matched[..|matched| - 1];
      match FirstHit(nodes, via, lo, hi)
      case None =>
        DrainAppends(nodes, t, rest, pool + [via], taken, lo, hi, d);
      case Some(j) =>
        DrainAppends(Apply(nodes, t, j), t, rest, pool, taken + [via], lo, hi, d);
    }
  }

  /** A connector is carried exactly when it hits no inner node, consumed when it hits one. */
  lemma {:induction false} DrainSorts(nodes: seq<Node>, t: Target, matched: seq<Node>, pool: seq<Node>, taken: seq<Node>, lo: nat, hi: nat, d: Drained)
    requires TargetIn(t, nodes) && hi <= |nodes| && d == Drain(nodes, t, matched, pool, taken, lo, hi)
    ensures forall m :: |pool| <= m < |d.pool| ==> d.pool[m] in matched && FirstHit(nodes, d.pool[m], lo, hi).None?
    ensures forall m :: |taken| <= m < |d.taken| ==> d.taken[m] in matched && FirstHit(nodes, d.taken[m], lo, hi).Some?
    decreases |matched|
  {
    if matched != [] {
      var via := matched[|matched| - 1];
      var rest := matched[..|matched| - 1];
      match FirstHit(nodes, via, lo, hi)
      case None =>
        DrainSorts(nodes, t, rest, pool + [via], taken, lo, hi, d);
        DrainAppends(nodes, t, rest, pool + [via], taken, lo, hi, d);
        assert d.pool[|pool|] == via;
      case Some(j) =>
        var n' := Apply(nodes, t, j);
        ApplyOnlyIds(nodes, t, j);
        DrainSorts(n', t, rest, pool, taken + [via], lo, hi, d);
        DrainAppends(n', t, rest, pool, taken + [via], lo, hi, d);
        assert d.taken[|taken|] == via;
        forall m | |taken| <= m < |d.taken|
          ensures FirstHit(nodes, d.taken[m], lo, hi).Some?
        {
          FirstHitShapes(nodes, n', d.taken[m], lo, hi);
        }
        forall m | |pool| <= m < |d.pool|
          ensures FirstHit(nodes, d.pool[m], lo, hi).None?
        {
          FirstHitShapes(nodes, n', d.pool[m], lo, hi);
        }
    }
  }

  // ---------------------------------------------------------------------
  // Which ids can occur
  // ---------------------------------------------------------------------

  /** An id is unassigned, a rail, or one of the fresh ids handed out below `next`. */
  predicate KnownId(x: int, next: int) {
    x == 0 || x == VCC || x == GND || FIRST_FRESH <= x < next
  }

  predicate IdsKnown(nodes: seq<Node>, next: int) {
    forall k :: 0 <= k < |nodes| ==> KnownId(nodes[k].id, next)
  }

  /** A fresh id is held by no node: neither the rails nor any id handed out before. */
  lemma FreshIdUnused(nodes: seq<Node>, next: int)
    requires IdsKnown(nodes, next) && next >= FIRST_FRESH
    ensures forall k :: 0 <= k < |nodes| ==> nodes[k].id != next
    ensures next != VCC && next != GND && next != 0
  {
  }

  /** Gives the outer node `cur` the next fresh id if it has none yet. */
  function Claim(nodes: seq<Node>, cur: nat, next: int): (r: (seq<Node>, int))
    requires cur < |nodes|
    ensures |r.0| == |nodes|
    ensures next != 0 ==> r.0[cur].id != 0
  {
    if nodes[cur].id == 0 then (nodes[cur := nodes[cur].(id := next)], next + 1) else (nodes, next)
  }

  /** Claiming keeps ids known, assigns `cur` with a fresh id if needed, and changes nothing else. */
  lemma ClaimSpec(nodes: seq<Node>, cur: nat, next: int, r: seq<Node>, x: int)
    requires cur < |nodes| && (r, x) == Claim(nodes, cur, next)
    requires IdsKnown(nodes, next) && next >= FIRST_FRESH
    ensures IdsKnown(r, x) && next <= x && OnlyIdsChanged(nodes, r) && r[cur].id != 0
    ensures Coarsens(nodes, r)
    ensures nodes[cur].id == 0 ==> r[cur].id == next && x == next + 1
    ensures nodes[cur].id != 0 ==> r == nodes && x == next
  {
  }

  lemma {:induction false} DrainKeepsIdsKnown(nodes: seq<Node>, t: Target, matched: seq<Node>, pool: seq<Node>, taken: seq<Node>, lo: nat, hi: nat, d: Drained, next: int)
    requires TargetIn(t, nodes) && hi <= |nodes| && d == Drain(nodes, t, matched, pool, taken, lo, hi)
    requires IdsKnown(nodes, next) && (t.Rail? ==> t.rail in {VCC, GND})
    ensures IdsKnown(d.nodes, next)
    decreases |matched|
  {
    if matched != [] {
      var via := matched[|matched| - 1];
      var rest := matched[..|matched| - 1];
      match FirstHit(nodes, via, lo, hi)
      case None =>
        DrainKeepsIdsKnown(nodes, t, rest, pool + [via], taken, lo, hi, d, next);
      case Some(j) =>
        if t.Join? && nodes[j].id != 0 && nodes[j].id != nodes[t.cur].id {
          RenumberAt(nodes, nodes[t.cur].id, nodes[j].id);
        }
        DrainKeepsIdsKnown(Apply(nodes, t, j), t, rest, pool, taken + [via], lo, hi, d, next);
    }
  }

  // ---------------------------------------------------------------------
  // Merging only joins nets
  // ---------------------------------------------------------------------

  /**
   * b is a coarsening of a: assigned nodes stay assigned, and two nodes on
   * one net in a are on one net in b.
   */
  predicate Coarsens(a: seq<Node>, b: seq<Node>) {
    && |a| == |b|
    && (forall k :: 0 <= k < |a| && a[k].id != 0 ==> b[k].id != 0)
    && (forall k, l :: 0 <= k < |a| && 0 <= l < |a| && a[k].id == a[l].id != 0 ==> b[k].id == b[l].id)
  }

  lemma CoarsensTrans(a: seq<Node>, b: seq<Node>, c: seq<Node>)
    requires Coarsens(a, b) && Coarsens(b, c)
    ensures Coarsens(a, c)
  {
  }

  /** Connecting joins the outer node and the hit node on one net and splits none. */
  lemma ConnectJoins(nodes: seq<Node>, cur: nat, j: nat)
    requires cur < |nodes| && j < |nodes| && nodes[cur].id != 0
    ensures Coarsens(nodes, Connect(nodes, cur, j))
    ensures Connect(nodes, cur, j)[cur].id == Connect(nodes, cur, j)[j].id != 0
  {
    if nodes[j].id != 0 && nodes[j].id != nodes[cur].id {
      RenumberAt(nodes, nodes[cur].id, nodes[j].id);
    }
  }

  /** Both ends of connector v are on one net: outer node k and the first inner node v hits. */
  predicate Joined(nodes: seq<Node>, k: nat, v: Node, lo: nat, hi: nat)
    requires k < |nodes| && hi <= |nodes|
  {
    var h := FirstHit(nodes, v, lo, hi);
    h.Some? && nodes[k].id != 0 && nodes[k].id == nodes[h.value].id
  }

  lemma JoinedKept(a: seq<Node>, b: seq<Node>, k: nat, v: Node, lo: nat, hi: nat)
    requires k < |a| && hi <= |a| && Coarsens(a, b) && SameShapes(a, b)
    requires Joined(a, k, v, lo, hi)
    ensures Joined(b, k, v, lo, hi)
  {
    FirstHitShapes(a, b, v, lo, hi);
  }

  /**
   * Draining the connectors of outer node `cur` only joins nets, and
   * leaves every consumed connector with both its ends on cur's net.
   */
  lemma {:induction false} DrainJoins(nodes: seq<Node>, cur: nat, matched: seq<Node>, pool: seq<Node>, taken: seq<Node>, lo: nat, hi: nat, d: Drained)
    requires cur < |nodes| && hi <= |nodes| && d == Drain(nodes, Join(cur), matched, pool, taken, lo, hi)
    requires nodes[cur].id != 0
    ensures Coarsens(nodes, d.nodes)
    ensures forall m :: |taken| <= m < |d.taken| ==> Joined(d.nodes, cur, d.taken[m], lo, hi)
    decreases |matched|
  {
    if matched != [] {
      var via := matched[|matched| - 1];
      var rest := matched[..|matched| - 1];
      match FirstHit(nodes, via, lo, hi)
      case None =>
        DrainJoins(nodes, cur, rest, pool + [via], taken, lo, hi, d);
      case Some(j) =>
        var n' := Connect(nodes, cur, j);
        ConnectJoins(nodes, cur, j);
        ApplyOnlyIds(nodes, Join(cur), j);
        DrainJoins(n', cur, rest, pool, taken + [via], lo, hi, d);
        DrainOnlyIds(n', Join(cur), rest, pool, taken + [via], lo, hi, d);
        CoarsensTrans(nodes, n', d.nodes);
        DrainAppends(n', Join(cur), rest, pool, taken + [via], lo, hi, d);
        assert d.taken[|taken|] == via;
        FirstHitShapes(nodes, n', via, lo, hi);
        assert Joined(n', cur, via, lo, hi);
        JoinedKept(n', d.nodes, cur, via, lo, hi);
    }
  }

  /** In a power-plane pass ids change only to the rail, and every consumed connector leaves its hit node on it. */
  lemma {:induction false} DrainStampsRail(nodes: seq<Node>, rail: int, matched: seq<Node>, pool: seq<Node>, taken: seq<Node>, lo: nat, hi: nat, d: Drained)
    requires hi <= |nodes| && d == Drain(nodes, Rail(rail), matched, pool, taken, lo, hi)
    ensures forall k :: 0 <= k < |nodes| ==> d.nodes[k].id == nodes[k].id || d.nodes[k].id == rail
    ensures forall m :: |taken| <= m < |d.taken| ==>
              FirstHit(d.nodes, d.taken[m], lo, hi).Some? && d.nodes[FirstHit(d.nodes, d.taken[m], lo, hi).value].id == rail
    decreases |matched|
  {
    if matched != [] {
      var via := matched[|matched| - 1];
      var rest := matched[..|matched| - 1];
      match FirstHit(nodes, via, lo, hi)
      case None =>
        DrainStampsRail(nodes, rail, rest, pool + [via], taken, lo, hi, d);
      case Some(j) =>
        var n' := Apply(nodes, Rail(rail), j);
        ApplyOnlyIds(nodes, Rail(rail), j);
        DrainStampsRail(n', rail, rest, pool, taken + [via], lo, hi, d);
        DrainAppends(n', Rail(rail), rest, pool, taken + [via], lo, hi, d);
        DrainOnlyIds(n', Rail(rail), rest, pool, taken + [via], lo, hi, d);
        assert d.taken[|taken|] == via;
        FirstHitShapes(nodes, d.nodes, via, lo, hi);
    }
  }

  // ---------------------------------------------------------------------
  // Sweeping the pool
  // ---------------------------------------------------------------------

  /**
   * One sweep of outer node `cur`: the connectors of the pool that touch
   * it are drained into the inner range [lo, hi) on behalf of target t; the
   * rest stay in the pool.
   */
  function Sweep(nodes: seq<Node>, t: Target, cur: nat, pool: seq<Node>, lo: nat, hi: nat): (r: Drained)
    requires TargetIn(t, nodes) && cur < |nodes| && hi <= |nodes|
    ensures |r.nodes| == |nodes|
  {
    var (m, u) := Split(pool, nodes[cur]);
    Drain(nodes, t, m, u, [], lo, hi)
  }

  /** A sweep loses no connector: what it carries and what it consumes make up the pool. */
  lemma SweepKeeps(nodes: seq<Node>, t: Target, cur: nat, pool: seq<Node>, lo: nat, hi: nat, d: Drained)
    requires TargetIn(t, nodes) && cur < |nodes| && hi <= |nodes| && d == Sweep(nodes, t, cur, pool, lo, hi)
    ensures multiset(d.pool) + multiset(d.taken) == multiset(pool)
  {
    var (m, u) := Split(pool, nodes[cur]);
    SplitKeeps(pool, nodes[cur]);
    DrainKeeps(nodes, t, m, u, [], lo, hi, d);
  }

  /** A sweep changes ids only. */
  lemma SweepOnlyIds(nodes: seq<Node>, t: Target, cur: nat, pool: seq<Node>, lo: nat, hi: nat, d: Drained)
    requires TargetIn(t, nodes) && cur < |nodes| && hi <= |nodes| && d == Sweep(nodes, t, cur, pool, lo, hi)
    ensures OnlyIdsChanged(nodes, d.nodes)
  {
    var (m, u) := Split(pool, nodes[cur]);
    DrainOnlyIds(nodes, t, m, u, [], lo, hi, d);
  }

  /** A connector a sweep carries came from the pool, and if it touches `cur` it hits no inner node. */
  lemma SweepCarries(nodes: seq<Node>, t: Target, cur: nat, pool: seq<Node>, lo: nat, hi: nat, d: Drained)
    requires TargetIn(t, nodes) && cur < |nodes| && hi <= |nodes| && d == Sweep(nodes, t, cur, pool, lo, hi)
    ensures forall v :: v in d.pool ==> v in pool && (Collide(nodes[cur], v) ==> FirstHit(d.nodes, v, lo, hi).None?)
  {
    var (m, u) := Split(pool, nodes[cur]);
    SplitSides(pool, nodes[cur]);
    DrainAppends(nodes, t, m, u, [], lo, hi, d);
    DrainSorts(nodes, t, m, u, [], lo, hi, d);
    DrainOnlyIds(nodes, t, m, u, [], lo, hi, d);
    forall v | v in d.pool
      ensures v in pool && (Collide(nodes[cur], v) ==> FirstHit(d.nodes, v, lo, hi).None?)
    {
      var q :| 0 <= q < |d.pool| && d.pool[q] == v;
      FirstHitShapes(nodes, d.nodes, v, lo, hi);
      if q < |u| {
        assert v in u;
      }
    }
  }

  /** Every connector a sweep consumes came from the pool, touches `cur` and hits an inner node. */
  lemma SweepTakes(nodes: seq<Node>, t: Target, cur: nat, pool: seq<Node>, lo: nat, hi: nat, d: Drained)
    requires TargetIn(t, nodes) && cur < |nodes| && hi <= |nodes| && d == Sweep(nodes, t, cur, pool, lo, hi)
    ensures forall q :: 0 <= q < |d.taken| ==>
              d.taken[q] in pool && Collide(nodes[cur], d.taken[q]) && FirstHit(d.nodes, d.taken[q], lo, hi).Some?
  {
    var (m, u) := Split(pool, nodes[cur]);
    SplitSides(pool, nodes[cur]);
    DrainSorts(nodes, t, m, u, [], lo, hi, d);
    DrainOnlyIds(nodes, t, m, u, [], lo, hi, d);
    forall q | 0 <= q < |d.taken|
      ensures FirstHit(d.nodes, d.taken[q], lo, hi).Some?
    {
      FirstHitShapes(nodes, d.nodes, d.taken[q], lo, hi);
    }
  }

  /** A sweep for a join only joins nets, and leaves both ends of every consumed connector on cur's net. */
  lemma SweepJoins(nodes: seq<Node>, cur: nat, pool: seq<Node>, lo: nat, hi: nat, d: Drained)
    requires cur < |nodes| && hi <= |nodes| && d == Sweep(nodes, Join(cur), cur, pool, lo, hi)
    requires nodes[cur].id != 0
    ensures Coarsens(nodes, d.nodes)
    ensures forall q :: 0 <= q < |d.taken| ==> Joined(d.nodes, cur, d.taken[q], lo, hi)
  {
    var (m, u) := Split(pool, nodes[cur]);
    DrainJoins(nodes, cur, m, u, [], lo, hi, d);
  }

  /** A sweep for a rail changes ids only to the rail, and puts the node each consumed connector hits on it. */
  lemma SweepStamps(nodes: seq<Node>, rail: int, cur: nat, pool: seq<Node>, lo: nat, hi: nat, d: Drained)
    requires cur < |nodes| && hi <= |nodes| && d == Sweep(nodes, Rail(rail), cur, pool, lo, hi)
    ensures forall k :: 0 <= k < |nodes| ==> d.nodes[k].id == nodes[k].id || d.nodes[k].id == rail
    ensures forall q :: 0 <= q < |d.taken| ==>
              FirstHit(d.nodes, d.taken[q], lo, hi).Some? && d.nodes[FirstHit(d.nodes, d.taken[q], lo, hi).value].id == rail
  {
    var (m, u) := Split(pool, nodes[cur]);
    DrainStampsRail(nodes, rail, m, u, [], lo, hi, d);
  }

  lemma SweepIdsKnown(nodes: seq<Node>, t: Target, cur: nat, pool: seq<Node>, lo: nat, hi: nat, d: Drained, next: int)
    requires TargetIn(t, nodes) && cur < |nodes| && hi <= |nodes| && d == Sweep(nodes, t, cur, pool, lo, hi)
    requires IdsKnown(nodes, next) && (t.Rail? ==> t.rail in {VCC, GND})
    ensures IdsKnown(d.nodes, next)
  {
    var (m, u) := Split(pool, nodes[cur]);
    DrainKeepsIdsKnown(nodes, t, m, u, [], lo, hi, d, next);
  }

  // ---------------------------------------------------------------------
  // Whole passes
  // ---------------------------------------------------------------------

  /**
   * What a connector pass threads: the nodes, the connector pool, the next
   * fresh id, and, for the proofs, every consumed connector in order.
   */
  datatype Pass = Pass(nodes: seq<Node>, pool: seq<Node>, next: int, taken: seq<Node>)

  /**
   * A power-plane pass: plane node p takes the rail id, the connectors it
   * collides with are drained into the inner range [lo, hi), and every
   * inner node hit takes the rail id.
   */
  function PlanePass(s: Pass, p: nat, rail: int, lo: nat, hi: nat): (r: Pass)
    requires p < |s.nodes| && hi <= |s.nodes|
    ensures |r.nodes| == |s.nodes| && r.next == s.next && |s.taken| <= |r.taken|
  {
    var d := Sweep(s.nodes[p := s.nodes[p].(id := rail)], Rail(rail), p, s.pool, lo, hi);
    Pass(d.nodes, d.pool, s.next, s.taken + d.taken)
  }

  /** After a plane pass the plane holds the rail and ids changed only to the rail. */
  lemma PlanePassIds(s: Pass, p: nat, rail: int, lo: nat, hi: nat, r: Pass)
    requires p < |s.nodes| && hi <= |s.nodes| && r == PlanePass(s, p, rail, lo, hi)
    requires IdsKnown(s.nodes, s.next) && rail in {VCC, GND}
    ensures IdsKnown(r.nodes, r.next) && OnlyIdsChanged(s.nodes, r.nodes)
    ensures r.nodes[p].id == rail
    ensures forall k :: 0 <= k < |s.nodes| ==> r.nodes[k].id == s.nodes[k].id || r.nodes[k].id == rail
  {
    var n1 := s.nodes[p := s.nodes[p].(id := rail)];
    var d := Sweep(n1, Rail(rail), p, s.pool, lo, hi);
    SweepOnlyIds(n1, Rail(rail), p, s.pool, lo, hi, d);
    SweepStamps(n1, rail, p, s.pool, lo, hi, d);
    SweepIdsKnown(n1, Rail(rail), p, s.pool, lo, hi, d, s.next);
  }

  /** A pass loses no connector: the pool and the consumed ones together are what they were. */
  lemma PlanePassConserves(s: Pass, p: nat, rail: int, lo: nat, hi: nat, r: Pass)
    requires p < |s.nodes| && hi <= |s.nodes| && r == PlanePass(s, p, rail, lo, hi)
    ensures multiset(r.pool) + multiset(r.taken) == multiset(s.pool) + multiset(s.taken)
    ensures r.taken[..|s.taken|] == s.taken
  {
    var n1 := s.nodes[p := s.nodes[p].(id := rail)];
    var d := Sweep(n1, Rail(rail), p, s.pool, lo, hi);
    SweepKeeps(n1, Rail(rail), p, s.pool, lo, hi, d);
    assert multiset(s.taken + d.taken) == multiset(s.taken) + multiset(d.taken);
    assert r.taken[..|s.taken|] == (s.taken + d.taken)[..|s.taken|];
  }

  /** A connector still in the pool after a plane pass touches the plane only if it hits no inner node. */
  lemma PlanePassCarries(s: Pass, p: nat, rail: int, lo: nat, hi: nat, r: Pass)
    requires p < |s.nodes| && hi <= |s.nodes| && r == PlanePass(s, p, rail, lo, hi)
    ensures forall v :: v in r.pool ==> v in s.pool && (Collide(r.nodes[p], v) ==> FirstHit(r.nodes, v, lo, hi).None?)
  {
    var n1 := s.nodes[p := s.nodes[p].(id := rail)];
    var d := Sweep(n1, Rail(rail), p, s.pool, lo, hi);
    SweepCarries(n1, Rail(rail), p, s.pool, lo, hi, d);
    SweepOnlyIds(n1, Rail(rail), p, s.pool, lo, hi, d);
    forall v | v in r.pool
      ensures Collide(r.nodes[p], v) == Collide(n1[p], v)
    {
      CollideShape(n1[p], r.nodes[p], v);
    }
  }

  /** Every connector a plane pass consumed came from the pool, touches the plane, and put the node it hit on the rail. */
  lemma PlanePassConsumes(s: Pass, p: nat, rail: int, lo: nat, hi: nat, r: Pass)
    requires p < |s.nodes| && hi <= |s.nodes| && r == PlanePass(s, p, rail, lo, hi)
    ensures forall m :: |s.taken| <= m < |r.taken| ==>
              && r.taken[m] in s.pool
              && Collide(r.nodes[p], r.taken[m])
              && FirstHit(r.nodes, r.taken[m], lo, hi).Some?
              && r.nodes[FirstHit(r.nodes, r.taken[m], lo, hi).value].id == rail
  {
    var n1 := s.nodes[p := s.nodes[p].(id := rail)];
    var d := Sweep(n1, Rail(rail), p, s.pool, lo, hi);
    SweepTakes(n1, Rail(rail), p, s.pool, lo, hi, d);
    SweepStamps(n1, rail, p, s.pool, lo, hi, d);
    SweepOnlyIds(n1, Rail(rail), p, s.pool, lo, hi, d);
    forall q | |s.taken| <= q < |r.taken|
      ensures r.taken[q] in s.pool && Collide(r.nodes[p], r.taken[q])
      ensures FirstHit(r.nodes, r.taken[q], lo, hi).Some? && r.nodes[FirstHit(r.nodes, r.taken[q], lo, hi).value].id == rail
    {
      assert r.taken[q] == d.taken[q - |s.taken|];
      CollideShape(n1[p], r.nodes[p], r.taken[q]);
    }
  }

  /** A poly node left on the ground net is retagged as protection; otherwise nothing changes. */
  function Protect(nodes: seq<Node>, i: nat, protect: bool): (r: seq<Node>)
    requires i < |nodes|
    ensures |r| == |nodes|
  {
    if protect && nodes[i].id == GND then nodes[i := nodes[i].(layer := LAYER_PROTECT)] else nodes
  }

  /**
   * One iteration of a metal or polysilicon pass for outer node i: claim a
   * fresh id if unassigned, sweep the pool with node i into [lo, hi), and
   * (polysilicon only) retag node i if it ended on the ground net.
   */
  function JoinStep(s: Pass, i: nat, lo: nat, hi: nat, protect: bool): (r: Pass)
    requires i < |s.nodes| && hi <= |s.nodes|
    ensures |r.nodes| == |s.nodes| && |s.taken| <= |r.taken|
  {
    var (n1, next1) := Claim(s.nodes, i, s.next);
    var d := Sweep(n1, Join(i), i, s.pool, lo, hi);
    Pass(Protect(d.nodes, i, protect), d.pool, next1, s.taken + d.taken)
  }

  /** Layers and ids leave the geometry alone, so collisions and hits survive them. */
  lemma ShapesKeepCollisions(a: seq<Node>, b: seq<Node>, k: nat, v: Node, lo: nat, hi: nat)
    requires SameShapes(a, b) && k < |a| && hi <= |a|
    ensures Collide(a[k], v) == Collide(b[k], v)
    ensures FirstHit(a, v, lo, hi) == FirstHit(b, v, lo, hi)
  {
    CollideShape(a[k], b[k], v);
    FirstHitShapes(a, b, v, lo, hi);
  }

  /**
   * One iteration of a join pass keeps ids known, only joins nets, assigns
   * its outer node, and changes no layer but the protection tag of node i.
   */
  lemma JoinStepIds(s: Pass, i: nat, lo: nat, hi: nat, protect: bool, r: Pass)
    requires i < |s.nodes| && hi <= |s.nodes| && r == JoinStep(s, i, lo, hi, protect)
    requires IdsKnown(s.nodes, s.next) && s.next >= FIRST_FRESH
    ensures IdsKnown(r.nodes, r.next) && s.next <= r.next
    ensures OnlyIdsAndLayersChanged(s.nodes, r.nodes)
    ensures Coarsens(s.nodes, r.nodes) && r.nodes[i].id != 0
    ensures forall k :: 0 <= k < |s.nodes| && k != i ==> r.nodes[k].layer == s.nodes[k].layer
    ensures r.nodes[i].layer == (if protect && r.nodes[i].id == GND then LAYER_PROTECT else s.nodes[i].layer)
  {
    var (n1, next1) := Claim(s.nodes, i, s.next);
    ClaimSpec(s.nodes, i, s.next, n1, next1);
    var d := Sweep(n1, Join(i), i, s.pool, lo, hi);
    SweepOnlyIds(n1, Join(i), i, s.pool, lo, hi, d);
    SweepJoins(n1, i, s.pool, lo, hi, d);
    SweepIdsKnown(n1, Join(i), i, s.pool, lo, hi, d, next1);
    CoarsensTrans(s.nodes, n1, d.nodes);
  }

  /** One iteration keeps every ring and box. */
  lemma JoinStepShapes(s: Pass, i: nat, lo: nat, hi: nat, protect: bool, r: Pass)
    requires i < |s.nodes| && hi <= |s.nodes| && r == JoinStep(s, i, lo, hi, protect)
    ensures SameShapes(s.nodes, r.nodes)
  {
    var (n1, next1) := Claim(s.nodes, i, s.next);
    var d := Sweep(n1, Join(i), i, s.pool, lo, hi);
    SweepOnlyIds(n1, Join(i), i, s.pool, lo, hi, d);
  }

  /** One iteration of a join pass loses no connector and only appends to the consumed ones. */
  lemma JoinStepConserves(s: Pass, i: nat, lo: nat, hi: nat, protect: bool, r: Pass)
    requires i < |s.nodes| && hi <= |s.nodes| && r == JoinStep(s, i, lo, hi, protect)
    ensures multiset(r.pool) + multiset(r.taken) == multiset(s.pool) + multiset(s.taken)
    ensures r.taken[..|s.taken|] == s.taken
  {
    var (n1, next1) := Claim(s.nodes, i, s.next);
    var d := Sweep(n1, Join(i), i, s.pool, lo, hi);
    SweepKeeps(n1, Join(i), i, s.pool, lo, hi, d);
    assert multiset(s.taken + d.taken) == multiset(s.taken) + multiset(d.taken);
    assert r.taken[..|s.taken|] == (s.taken + d.taken)[..|s.taken|];
  }

  /** A connector left in the pool by iteration i was in it before, and touches node i only if it hits no inner node. */
  lemma JoinStepCarries(s: Pass, i: nat, lo: nat, hi: nat, protect: bool, r: Pass)
    requires i < |s.nodes| && hi <= |s.nodes| && r == JoinStep(s, i, lo, hi, protect)
    ensures forall v :: v in r.pool ==> v in s.pool && (Collide(r.nodes[i], v) ==> FirstHit(r.nodes, v, lo, hi).None?)
  {
    var (n1, next1) := Claim(s.nodes, i, s.next);
    var d := Sweep(n1, Join(i), i, s.pool, lo, hi);
    SweepCarries(n1, Join(i), i, s.pool, lo, hi, d);
    SweepOnlyIds(n1, Join(i), i, s.pool, lo, hi, d);
    assert SameShapes(d.nodes, r.nodes);
    forall v | v in r.pool
      ensures Collide(r.nodes[i], v) == Collide(n1[i], v)
      ensures FirstHit(r.nodes, v, lo, hi) == FirstHit(d.nodes, v, lo, hi)
    {
      CollideShape(n1[i], r.nodes[i], v);
      FirstHitShapes(d.nodes, r.nodes, v, lo, hi);
    }
  }

  /** Every connector consumed in iteration i came from the pool, touches node i, and joins its inner node to i's net. */
  lemma JoinStepConsumes(s: Pass, i: nat, lo: nat, hi: nat, protect: bool, r: Pass)
    requires i < |s.nodes| && hi <= |s.nodes| && r == JoinStep(s, i, lo, hi, protect)
    requires s.next >= FIRST_FRESH
    ensures forall m :: |s.taken| <= m < |r.taken| ==>
              r.taken[m] in s.pool && Collide(r.nodes[i], r.taken[m]) && Joined(r.nodes, i, r.taken[m], lo, hi)
  {
    var (n1, next1) := Claim(s.nodes, i, s.next);
    var d := Sweep(n1, Join(i), i, s.pool, lo, hi);
    SweepTakes(n1, Join(i), i, s.pool, lo, hi, d);
    SweepJoins(n1, i, s.pool, lo, hi, d);
    SweepOnlyIds(n1, Join(i), i, s.pool, lo, hi, d);
    assert SameShapes(d.nodes, r.nodes);
    assert Coarsens(d.nodes, r.nodes);
    forall q | |s.taken| <= q < |r.taken|
      ensures r.taken[q] in s.pool && Collide(r.nodes[i], r.taken[q]) && Joined(r.nodes, i, r.taken[q], lo, hi)
    {
      var v := r.taken[q];
      assert v == d.taken[q - |s.taken|];
      CollideShape(n1[i], r.nodes[i], v);
      JoinedKept(d.nodes, r.nodes, i, v, lo, hi);
    }
  }

  /** The outer nodes from, .., until-1 handled in order. */
  function JoinPass(s: Pass, from: nat, until: nat, lo: nat, hi: nat, protect: bool): (r: Pass)
    requires from <= until <= |s.nodes| && hi <= |s.nodes|
    ensures |r.nodes| == |s.nodes| && |s.taken| <= |r.taken|
    decreases until
  {
    if until == from then s
    else JoinStep(JoinPass(s, from, until - 1, lo, hi, protect), until - 1, lo, hi, protect)
  }

  /** A join pass one node longer ends with that node's step. */
  lemma JoinPassNext(s: Pass, from: nat, until: nat, lo: nat, hi: nat, protect: bool)
    requires from <= until < |s.nodes| && hi <= |s.nodes|
    ensures JoinPass(s, from, until + 1, lo, hi, protect) == JoinStep(JoinPass(s, from, until, lo, hi, protect), until, lo, hi, protect)
  {
  }

  /** What a join pass over [from, until) promises about ids and layers. */
  predicate PassIds(s: Pass, r: Pass, from: nat, until: nat, protect: bool)
    requires from <= until <= |s.nodes| && |r.nodes| == |s.nodes|
  {
    && IdsKnown(r.nodes, r.next) && s.next <= r.next
    && OnlyIdsAndLayersChanged(s.nodes, r.nodes)
    && Coarsens(s.nodes, r.nodes)
    && (forall k :: from <= k < until ==> r.nodes[k].id != 0)
    && (forall k :: 0 <= k < |s.nodes| && !(from <= k < until) ==> r.nodes[k].layer == s.nodes[k].layer)
    && (forall k :: from <= k < until ==>
          r.nodes[k].layer == s.nodes[k].layer || (protect && r.nodes[k].layer == LAYER_PROTECT))
  }

  /** Extending a pass by one iteration keeps what the pass promises about ids and layers. */
  lemma PassIdsStep(s: Pass, t: Pass, r: Pass, from: nat, until: nat, lo: nat, hi: nat, protect: bool)
    requires from < until <= |s.nodes| && hi <= |s.nodes| && |t.nodes| == |s.nodes|
    requires r == JoinStep(t, until - 1, lo, hi, protect)
    requires PassIds(s, t, from, until - 1, protect)
    requires IdsKnown(t.nodes, t.next) && t.next >= FIRST_FRESH
    ensures PassIds(s, r, from, until, protect)
  {
    JoinStepIds(t, until - 1, lo, hi, protect, r);
    CoarsensTrans(s.nodes, t.nodes, r.nodes);
  }

  /**
   * A join pass over the outer nodes [from, until) keeps ids among the
   * known ones, only joins nets, leaves every outer node assigned, and
   * changes layers only of outer nodes, only to protection.
   */
  lemma {:induction false} JoinPassIds(s: Pass, from: nat, until: nat, lo: nat, hi: nat, protect: bool, r: Pass)
    requires from <= until <= |s.nodes| && hi <= |s.nodes| && r == JoinPass(s, from, until, lo, hi, protect)
    requires IdsKnown(s.nodes, s.next) && s.next >= FIRST_FRESH
    ensures PassIds(s, r, from, until, protect)
    decreases until
  {
    if until > from {
      var t := JoinPass(s, from, until - 1, lo, hi, protect);
      JoinPassIds(s, from, until - 1, lo, hi, protect, t);
      PassIdsStep(s, t, r, from, until, lo, hi, protect);
    }
  }

  /** A join pass loses no connector, and only appends to the record of consumed connectors. */
  lemma {:induction false} JoinPassConserves(s: Pass, from: nat, until: nat, lo: nat, hi: nat, protect: bool, r: Pass)
    requires from <= until <= |s.nodes| && hi <= |s.nodes| && r == JoinPass(s, from, until, lo, hi, protect)
    ensures multiset(r.pool) + multiset(r.taken) == multiset(s.pool) + multiset(s.taken)
    ensures r.taken[..|s.taken|] == s.taken
    decreases until
  {
    if until > from {
      var t := JoinPass(s, from, until - 1, lo, hi, protect);
      JoinPassConserves(s, from, until - 1, lo, hi, protect, t);
      JoinStepConserves(t, until - 1, lo, hi, protect, r);
      assert r.taken[..|s.taken|] == r.taken[..|t.taken|][..|s.taken|];
    }
  }

  /** A connector still in the pool after a join pass was there before, and hits no inner node if it touches any outer node. */
  lemma {:induction false} JoinPassCarries(s: Pass, from: nat, until: nat, lo: nat, hi: nat, protect: bool, r: Pass)
    requires from <= until <= |s.nodes| && hi <= |s.nodes| && r == JoinPass(s, from, until, lo, hi, protect)
    ensures forall v :: v in r.pool ==> v in s.pool
    ensures forall v, k :: v in r.pool && from <= k < until && Collide(r.nodes[k], v) ==> FirstHit(r.nodes, v, lo, hi).None?
    decreases until
  {
    if until > from {
      var t := JoinPass(s, from, until - 1, lo, hi, protect);
      JoinPassCarries(s, from, until - 1, lo, hi, protect, t);
      CarriesStep(t, r, from, until, lo, hi, protect);
    }
  }

  /** The step of JoinPassCarries: iteration until-1 keeps what the earlier iterations carried unhit. */
  lemma CarriesStep(t: Pass, r: Pass, from: nat, until: nat, lo: nat, hi: nat, protect: bool)
    requires from < until <= |t.nodes| && hi <= |t.nodes| && r == JoinStep(t, until - 1, lo, hi, protect)
    requires forall v, k :: v in t.pool && from <= k < until - 1 && Collide(t.nodes[k], v) ==> FirstHit(t.nodes, v, lo, hi).None?
    ensures forall v :: v in r.pool ==> v in t.pool
    ensures forall v, k :: v in r.pool && from <= k < until && Collide(r.nodes[k], v) ==> FirstHit(r.nodes, v, lo, hi).None?
  {
    JoinStepCarries(t, until - 1, lo, hi, protect, r);
    JoinStepShapes(t, until - 1, lo, hi, protect, r);
    forall v, k | v in r.pool && from <= k < until - 1 && Collide(r.nodes[k], v)
      ensures FirstHit(r.nodes, v, lo, hi).None?
    {
      ShapesKeepCollisions(t.nodes, r.nodes, k, v, lo, hi);
    }
  }

  /** Connector v was consumed by one of the outer nodes [from, until): it touches it and joins its inner node to it. */
  predicate Owned(nodes: seq<Node>, v: Node, from: nat, until: nat, lo: nat, hi: nat)
    requires until <= |nodes| && hi <= |nodes|
  {
    exists k :: from <= k < until && Collide(nodes[k], v) && Joined(nodes, k, v, lo, hi)
  }

  /** The step of JoinPassConsumes: iteration until-1 keeps earlier connectors owned and owns its own. */
  lemma ConsumesStep(s: Pass, t: Pass, r: Pass, from: nat, until: nat, lo: nat, hi: nat, protect: bool)
    requires from < until <= |t.nodes| && hi <= |t.nodes| && r == JoinStep(t, until - 1, lo, hi, protect)
    requires t.next >= FIRST_FRESH && IdsKnown(t.nodes, t.next)
    requires |s.taken| <= |t.taken|
    requires forall m :: |s.taken| <= m < |t.taken| ==> Owned(t.nodes, t.taken[m], from, until - 1, lo, hi)
    ensures forall m :: |s.taken| <= m < |r.taken| ==> Owned(r.nodes, r.taken[m], from, until, lo, hi)
  {
    JoinStepConsumes(t, until - 1, lo, hi, protect, r);
    JoinStepIds(t, until - 1, lo, hi, protect, r);
    JoinStepConserves(t, until - 1, lo, hi, protect, r);
    JoinStepShapes(t, until - 1, lo, hi, protect, r);
    OwnedStep(t.nodes, r.nodes, t.taken, r.taken, |s.taken|, from, until, lo, hi);
  }

  /**
   * The connectors consumed before a step that only joins nets stay owned,
   * and those the step's outer node consumed are owned by it.
   */
  lemma OwnedStep(a: seq<Node>, b: seq<Node>, before: seq<Node>, taken: seq<Node>, base: nat, from: nat, until: nat, lo: nat, hi: nat)
    requires from < until <= |a| && hi <= |a| && Coarsens(a, b) && SameShapes(a, b)
    requires base <= |before| <= |taken| && taken[..|before|] == before
    requires forall m :: base <= m < |before| ==> Owned(a, before[m], from, until - 1, lo, hi)
    requires forall m :: |before| <= m < |taken| ==> Collide(b[until - 1], taken[m]) && Joined(b, until - 1, taken[m], lo, hi)
    ensures forall m :: base <= m < |taken| ==> Owned(b, taken[m], from, until, lo, hi)
  {
    forall q | base <= q < |taken|
      ensures Owned(b, taken[q], from, until, lo, hi)
    {
      if q < |before| {
        assert taken[q] == taken[..|before|][q] == before[q];
        OwnedKept(a, b, before[q], from, until, lo, hi);
      }
    }
  }

  /** A connector owned before a step stays owned after it, by the same outer node. */
  lemma OwnedKept(a: seq<Node>, b: seq<Node>, v: Node, from: nat, until: nat, lo: nat, hi: nat)
    requires from < until <= |a| && hi <= |a| && Coarsens(a, b) && SameShapes(a, b)
    requires Owned(a, v, from, until - 1, lo, hi)
    ensures Owned(b, v, from, until, lo, hi)
  {
    var k :| from <= k < until - 1 && Collide(a[k], v) && Joined(a, k, v, lo, hi);
    ShapesKeepCollisions(a, b, k, v, lo, hi);
    JoinedKept(a, b, k, v, lo, hi);
  }

  /**
   * Every connector a join pass consumed touches an outer node, hits an
   * inner node, and that inner node is on the outer node's net when the
   * pass ends.
   */
  lemma {:induction false} JoinPassConsumes(s: Pass, from: nat, until: nat, lo: nat, hi: nat, protect: bool, r: Pass)
    requires from <= until <= |s.nodes| && hi <= |s.nodes| && r == JoinPass(s, from, until, lo, hi, protect)
    requires IdsKnown(s.nodes, s.next) && s.next >= FIRST_FRESH
    ensures forall m :: |s.taken| <= m < |r.taken| ==> Owned(r.nodes, r.taken[m], from, until, lo, hi)
    decreases until
  {
    if until > from {
      var t := JoinPass(s, from, until - 1, lo, hi, protect);
      JoinPassConsumes(s, from, until - 1, lo, hi, protect, t);
      JoinPassIds(s, from, until - 1, lo, hi, protect, t);
      ConsumesStep(s, t, r, from, until, lo, hi, protect);
    }
  }

  // ---------------------------------------------------------------------
  // The diffusion pass
  // ---------------------------------------------------------------------

  /** Diffusion node i: claim a fresh id if unassigned, then tag it by the rail it is on. */
  function RetagStep(nodes: seq<Node>, next: int, i: nat): (r: (seq<Node>, int))
    requires i < |nodes|
    ensures |r.0| == |nodes|
    ensures forall k :: 0 <= k < |nodes| && k != i ==> r.0[k] == nodes[k]
  {
    var (n1, next1) := Claim(nodes, i, next);
    if n1[i].id == VCC then (n1[i := n1[i].(layer := LAYER_DIFF_VCC)], next1)
    else if n1[i].id == GND then (n1[i := n1[i].(layer := LAYER_DIFF_GND)], next1)
    else (n1, next1)
  }

  function RetagPass(nodes: seq<Node>, next: int, from: nat, until: nat): (r: (seq<Node>, int))
    requires from <= until <= |nodes|
    ensures |r.0| == |nodes|
    ensures forall k :: 0 <= k < |nodes| && !(from <= k < until) ==> r.0[k] == nodes[k]
    decreases until
  {
    if until == from then (nodes, next)
    else
      var (n, x) := RetagPass(nodes, next, from, until - 1);
      RetagStep(n, x, until - 1)
  }

  /**
   * After the diffusion pass every node of [from, until) is assigned,
   * assigned nodes keep their ids, ids stay known, and only ids and
   * layer tags change.
   */
  lemma {:induction false} RetagPassIds(nodes: seq<Node>, next: int, from: nat, until: nat, r: seq<Node>, x: int)
    requires from <= until <= |nodes| && (r, x) == RetagPass(nodes, next, from, until)
    requires IdsKnown(nodes, next) && next >= FIRST_FRESH
    ensures IdsKnown(r, x) && next <= x
    ensures OnlyIdsAndLayersChanged(nodes, r)
    ensures forall k :: from <= k < until ==> r[k].id != 0
    ensures forall k :: 0 <= k < |nodes| && nodes[k].id != 0 ==> r[k].id == nodes[k].id
    decreases until
  {
    if until > from {
      var (n, y) := RetagPass(nodes, next, from, until - 1);
      RetagPassIds(nodes, next, from, until - 1, n, y);
      RetagStepIds(n, y, until - 1, r, x);
    }
  }

  /** One diffusion node: ids stay known, the node is assigned, and assigned nodes keep their ids. */
  lemma RetagStepIds(nodes: seq<Node>, next: int, i: nat, r: seq<Node>, x: int)
    requires i < |nodes| && (r, x) == RetagStep(nodes, next, i)
    requires IdsKnown(nodes, next) && next >= FIRST_FRESH
    ensures IdsKnown(r, x) && next <= x
    ensures OnlyIdsAndLayersChanged(nodes, r)
    ensures r[i].id != 0
    ensures forall k :: 0 <= k < |nodes| && nodes[k].id != 0 ==> r[k].id == nodes[k].id
  {
    var (n1, y1) := Claim(nodes, i, next);
    ClaimSpec(nodes, i, next, n1, y1);
  }

  /** Every diffusion node is tagged by the rail it ended on, and keeps its layer otherwise. */
  lemma {:induction false} RetagPassLayers(nodes: seq<Node>, next: int, from: nat, until: nat, r: seq<Node>, x: int)
    requires from <= until <= |nodes| && (r, x) == RetagPass(nodes, next, from, until)
    ensures forall k :: from <= k < until ==>
              r[k].layer == if r[k].id == VCC then LAYER_DIFF_VCC else if r[k].id == GND then LAYER_DIFF_GND else nodes[k].layer
    decreases until
  {
    if until > from {
      var (n, y) := RetagPass(nodes, next, from, until - 1);
      RetagPassLayers(nodes, next, from, until - 1, n, y);
    }
  }

  /** The unassigned diffusion nodes receive distinct ids, handed out in order from `next`. */
  lemma {:induction false} RetagPassFresh(nodes: seq<Node>, next: int, from: nat, until: nat, r: seq<Node>, x: int)
    requires from <= until <= |nodes| && (r, x) == RetagPass(nodes, next, from, until)
    ensures next <= x
    ensures forall k :: from <= k < until && nodes[k].id == 0 ==> next <= r[k].id < x
    ensures forall k, l :: from <= k < l < until && nodes[k].id == 0 && nodes[l].id == 0 ==> r[k].id < r[l].id
    decreases until
  {
    if until > from {
      var (n, y) := RetagPass(nodes, next, from, until - 1);
      RetagPassFresh(nodes, next, from, until - 1, n, y);
    }
  }
}
