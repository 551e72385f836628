/**
 * The vectorizer's in-memory image: a grid of 256 x 256 chunks, one column
 * of chunks allocated per 256 pixels of width. Column `cx` is one block of
 * `ch` chunks; chunk `cy` occupies bytes `cy * 65536 ..` of it, and pixel
 * `(dx, dy)` of a chunk is byte `dx * 256 + dy` of the chunk.
 */
module Image {
  import opened Bits
  import opened Raster
  import opened RuleFile
  import opened Corners

  const CHUNK_SIZE: int := 256

  /** The bytes of one chunk. */
  const CHUNK_BYTES: int := 0x1_0000

  /** Where pixel `(x, y)` lies in its column of chunks. */
  function Offset(x: nat, y: nat): nat {
    (y / CHUNK_SIZE) * CHUNK_BYTES + (x % CHUNK_SIZE) * CHUNK_SIZE + y % CHUNK_SIZE
  }

  /** Two pixels of one column of chunks share a byte only if they are the same pixel. */
  lemma OffsetInjective(x: nat, y: nat, x': nat, y': nat)
    requires x / CHUNK_SIZE == x' / CHUNK_SIZE && Offset(x, y) == Offset(x', y')
    ensures x == x' && y == y'
  {
    var inner := (x % CHUNK_SIZE) * CHUNK_SIZE + y % CHUNK_SIZE;
    var inner' := (x' % CHUNK_SIZE) * CHUNK_SIZE + y' % CHUNK_SIZE;
    DivModUnique(Offset(x, y), CHUNK_BYTES, y / CHUNK_SIZE, inner);
    DivModUnique(Offset(x', y'), CHUNK_BYTES, y' / CHUNK_SIZE, inner');
    DivModUnique(inner, CHUNK_SIZE, x % CHUNK_SIZE, y % CHUNK_SIZE);
    DivModUnique(inner', CHUNK_SIZE, x' % CHUNK_SIZE, y' % CHUNK_SIZE);
  }

  /**
   * Pixel `(dx, dy)` of chunk `cy` in a column of chunks; a pixel outside
   * the chunk reads as 0.
   */
  function ChunkGet(column: array<byte>, cy: nat, dx: int, dy: int): (v: byte)
    reads column
    requires (cy + 1) * CHUNK_BYTES <= column.Length
    ensures !(0 <= dx < CHUNK_SIZE && 0 <= dy < CHUNK_SIZE) ==> v == 0
  {
    if dx < 0 || dx >= CHUNK_SIZE || dy < 0 || dy >= CHUNK_SIZE then 0
    else column[cy * CHUNK_BYTES + dx * CHUNK_SIZE + dy]
  }

  /**
   * Sets pixel `(dx, dy)` of chunk `cy` in a column of chunks; a pixel
   * outside the chunk is ignored. A set pixel reads back as written and no
   * other byte changes.
   */
  method ChunkSet(column: array<byte>, cy: nat, dx: int, dy: int, v: byte)
    requires (cy + 1) * CHUNK_BYTES <= column.Length
    modifies column
    ensures ChunkGet(column, cy, dx, dy) == if 0 <= dx < CHUNK_SIZE && 0 <= dy < CHUNK_SIZE then v else 0
    ensures 0 <= dx < CHUNK_SIZE && 0 <= dy < CHUNK_SIZE ==>
              column[..] == old(column[..])[cy * CHUNK_BYTES + dx * CHUNK_SIZE + dy := v]
    ensures !(0 <= dx < CHUNK_SIZE && 0 <= dy < CHUNK_SIZE) ==> column[..] == old(column[..])
  {
    if dx < 0 || dx >= CHUNK_SIZE || dy < 0 || dy >= CHUNK_SIZE {
      return;
    }
    column[cy * CHUNK_BYTES + dx * CHUNK_SIZE + dy] := v;
  }

  /** Zeroes every pixel of every chunk of a column, chunk by chunk, pixel by pixel. */
  method ClearColumn(column: array<byte>, ch: nat)
    requires column.Length == ch * CHUNK_BYTES
    modifies column
    ensures forall i :: 0 <= i < column.Length ==> column[i] == 0
  {
    for cy := 0 to ch
      invariant forall i :: 0 <= i < cy * CHUNK_BYTES ==> column[i] == 0
    {
      for dx := 0 to CHUNK_SIZE
        invariant forall i :: 0 <= i < cy * CHUNK_BYTES + dx * CHUNK_SIZE ==> column[i] == 0
      {
        for dy := 0 to CHUNK_SIZE
          invariant forall i :: 0 <= i < cy * CHUNK_BYTES + dx * CHUNK_SIZE + dy ==> column[i] == 0
        {
          ChunkSet(column, cy, dx, dy, 0);
        }
      }
    }
  }

  /** Pixel `(x, y)`, when it lies in the plane, is stored at its offset in its column of chunks. */
  predicate Holds(cols: seq<seq<byte>>, p: Plane, x: nat, y: nat)
    requires p.Valid()
  {
    x < p.width && y < p.height ==>
      && x / CHUNK_SIZE < |cols| && Offset(x, y) < |cols[x / CHUNK_SIZE]|
      && cols[x / CHUNK_SIZE][Offset(x, y)] == p.cells[x][y]
  }

  /** Every pixel of the plane is stored at its offset in its column of chunks. */
  ghost predicate Coupled(cols: seq<seq<byte>>, p: Plane)
    requires p.Valid()
  {
    forall x: nat, y: nat :: Holds(cols, p, x, y)
  }

  /** The columns with the byte of pixel `(x, y)` set to `v`. */
  function Store(cols: seq<seq<byte>>, x: nat, y: nat, v: byte): (r: seq<seq<byte>>)
    requires x / CHUNK_SIZE < |cols| && Offset(x, y) < |cols[x / CHUNK_SIZE]|
    ensures |r| == |cols| && forall i :: 0 <= i < |r| ==> |r[i]| == |cols[i]|
  {
    var column: seq<byte> := cols[x / CHUNK_SIZE][Offset(x, y) := v];
    cols[x / CHUNK_SIZE := column]
  }

  /** Writing a pixel's byte in its column keeps the columns and the plane with that pixel written in step. */
  lemma CoupledPut(cols: seq<seq<byte>>, p: Plane, x: nat, y: nat, v: byte)
    requires p.Valid() && Coupled(cols, p) && p.Inside(x, y)
    ensures x / CHUNK_SIZE < |cols| && Offset(x, y) < |cols[x / CHUNK_SIZE]|
    ensures Coupled(Store(cols, x, y, v), Put(p, x, y, v))
  {
    StoreKeeps(cols, p, x, y, v, x, y);
    CoupledAfter(cols, p, x, y, v, Store(cols, x, y, v), Put(p, x, y, v));
  }

  /** The columns and the plane after the write are coupled, pixel by pixel. */
  lemma CoupledAfter(cols: seq<seq<byte>>, p: Plane, x: nat, y: nat, v: byte, cols': seq<seq<byte>>, q: Plane)
    requires p.Valid() && Coupled(cols, p) && p.Inside(x, y)
    requires x / CHUNK_SIZE < |cols| && Offset(x, y) < |cols[x / CHUNK_SIZE]|
    requires cols' == Store(cols, x, y, v) && q == Put(p, x, y, v)
    ensures q.Valid() && Coupled(cols', q)
  {
    forall x': nat, y': nat
      ensures Holds(cols', q, x', y')
    {
      if p.Inside(x', y') {
        StoreKeeps(cols, p, x, y, v, x', y');
      }
    }
  }

  /** After the write, pixel `(x', y')` is still stored at its offset. */
  lemma StoreKeeps(cols: seq<seq<byte>>, p: Plane, x: nat, y: nat, v: byte, x': nat, y': nat)
    requires p.Valid() && Coupled(cols, p) && p.Inside(x, y) && p.Inside(x', y')
    ensures x / CHUNK_SIZE < |cols| && Offset(x, y) < |cols[x / CHUNK_SIZE]|
    ensures x' / CHUNK_SIZE < |Store(cols, x, y, v)| && Offset(x', y') < |Store(cols, x, y, v)[x' / CHUNK_SIZE]|
    ensures Store(cols, x, y, v)[x' / CHUNK_SIZE][Offset(x', y')] == Put(p, x, y, v).cells[x'][y']
  {
    assert Holds(cols, p, x, y) && Holds(cols, p, x', y');
    if x' / CHUNK_SIZE == x / CHUNK_SIZE && Offset(x', y') == Offset(x, y) {
      OffsetInjective(x, y, x', y');
    }
  }

  /** Columns of zero bytes, long enough for every row, hold a blank plane. */
  lemma CoupledBlank(cols: seq<seq<byte>>, width: nat, height: nat)
    requires |cols| == width / CHUNK_SIZE + 1
    requires forall i :: 0 <= i < |cols| ==> |cols[i]| == (height / CHUNK_SIZE + 1) * CHUNK_BYTES
    requires forall i, k :: 0 <= i < |cols| && 0 <= k < |cols[i]| ==> cols[i][k] == 0
    ensures Coupled(cols, Blank(width, height))
  {
    var p := Blank(width, height);
    forall x: nat, y: nat | x < width && y < height
      ensures Holds(cols, p, x, y)
    {
      assert Offset(x, y) < (y / CHUNK_SIZE + 1) * CHUNK_BYTES;
      assert y / CHUNK_SIZE <= height / CHUNK_SIZE;
      assert At(p, x, y) == 0;
    }
  }

  /** The image. `view` is the plane it holds. */
  class Image {
    var data: seq<array<byte>>
    var cw: int
    var ch: int
    var pw: int
    var ph: int
    ghost var view: Plane

    /** The bytes of every column of chunks. */
    ghost function Columns(): (cols: seq<seq<byte>>)
      reads this, data
      ensures |cols| == |data| && forall i :: 0 <= i < |data| ==> cols[i] == data[i][..]
    {
      var columns := data;
      seq(|columns|, i requires 0 <= i < |columns| reads columns => columns[i][..])
    }

    ghost predicate Valid()
      reads this, data
    {
      && view.Valid() && view.width == pw && view.height == ph
      && |data| == cw
      && (cw == 0 ==> pw == 0 && ph == 0 && ch == 0)
      && (cw != 0 ==> cw == pw / CHUNK_SIZE + 1 && ch == ph / CHUNK_SIZE + 1)
      && (forall i :: 0 <= i < |data| ==> data[i].Length == ch * CHUNK_BYTES)
      && (forall i, j :: 0 <= i < j < |data| ==> data[i] != data[j])
      && Coupled(Columns(), view)
    }

    /** The empty image, before any allocation. */
    constructor ()
      ensures Valid() && data == [] && pw == 0 && ph == 0
      ensures view == Blank(0, 0)
    {
      data := [];
      cw, ch, pw, ph := 0, 0, 0, 0;
      view := Blank(0, 0);
    }

    /**
     * Allocates a blank `width` by `height` image: one column of chunks per
     * 256 pixels of width and one chunk per 256 rows, each an extra one,
     * every pixel zeroed.
     */
    method Alloc(width: nat, height: nat)
      modifies this
      ensures Valid()
      ensures pw == width && ph == height && cw == width / CHUNK_SIZE + 1 && ch == height / CHUNK_SIZE + 1
      ensures view == Blank(width, height)
      ensures forall i :: 0 <= i < |data| ==> fresh(data[i])
    {
      var columns: seq<array<byte>> := [];
      var across := width / CHUNK_SIZE + 1;
      var down := height / CHUNK_SIZE + 1;
      for cx := 0 to across
        invariant |columns| == cx
        invariant forall i :: 0 <= i < cx ==> fresh(columns[i]) && columns[i].Length == down * CHUNK_BYTES
        invariant forall i :: 0 <= i < cx ==> forall k :: 0 <= k < columns[i].Length ==> columns[i][k] == 0
        invariant forall i, j :: 0 <= i < j < cx ==> columns[i] != columns[j]
      {
        var column := new byte[down * CHUNK_BYTES];
        ClearColumn(column, down);
        columns := columns + [column];
      }
      pw, ph, cw, ch := width, height, across, down;
      data := columns;
      view := Blank(width, height);
      CoupledBlank(Columns(), width, height);
    }

    /** Pixel `(x, y)`; outside the image it reads as 0. */
    function Get(x: int, y: int): (v: byte)
      reads this, data
      requires Valid()
      ensures v == At(view, x, y)
    {
      if x < 0 || x >= pw || y < 0 || y >= ph then 0
      else
        assert Holds(Columns(), view, x, y);
        ChunkGet(data[x / CHUNK_SIZE], y / CHUNK_SIZE, x % CHUNK_SIZE, y % CHUNK_SIZE)
    }

    /** Sets pixel `(x, y)` to `v`; outside the image nothing changes. */
    method Set(x: int, y: int, v: byte)
      requires Valid()
      modifies this`view, data
      ensures Valid()
      ensures view == Put(old(view), x, y, v)
    {
      if x < 0 || x >= pw || y < 0 || y >= ph {
        return;
      }
      ghost var cols := Columns();
      var column := data[x / CHUNK_SIZE];
      CoupledPut(cols, view, x, y, v);
      ChunkSet(column, y / CHUNK_SIZE, x % CHUNK_SIZE, y % CHUNK_SIZE, v);
      view := Put(view, x, y, v);
      assert Columns() == Store(cols, x, y, v);
    }

    /**
     * Erases the 4-connected lit region of `(x, y)` with an explicit stack:
     * a popped pixel that is lit is darkened and its left, right, upper and
     * lower neighbours are pushed. Pixels outside the region keep their
     * values; from a dark pixel nothing changes.
     */
    method FloodErase(x: int, y: int)
      requires Valid()
      modifies this`view, data
      ensures Valid()
      ensures view == Erased(old(view), Coord(x, y))
    {
      ghost var orig := view;
      ghost var start := Coord(x, y);
      var flood := [Coord(x, y)];
      Begun(orig, start);
      while flood != []
        invariant Valid() && view.width == orig.width && view.height == orig.height
        invariant Progress(orig, view, start, flood)
        decreases |LitSet(view)|, |flood|
      {
        flood := EraseTop(orig, start, flood);
      }
      Settled(orig, view, start);
    }

    /**
     * Builds the neighbourhood mask of `(x, y)` cell by cell, row by row,
     * skipping the centre, and looks it up in the rules for a walk going in
     * direction `dir`. Returns whether `(x, y)` is a corner, the direction
     * to go on in, and the mask.
     */
    method IsCorner(x: int, y: int, rules: Rules, dir: Dir) returns (corner: bool, turn: Dir, mask: nat)
      requires Valid()
      ensures mask == Neighbourhood(view, x, y) && mask < MASK_LIMIT
      ensures (corner, turn) == Classify(rules, mask, dir)
    {
      mask := 0;
      for dy := 0 to 5
        invariant mask == MaskUpTo(view, x, y, 5 * dy)
      {
        mask := ShiftRow(x, y, dy, mask);
      }
      MaskBits(view, x, y, 0);
      if mask in rules {
        if dir == rules[mask] {
          return false, dir, mask;
        }
        return true, rules[mask], mask;
      }
      return false, DIR_NONE, mask;
    }

    /** Shifts row `dy` of the window around `(x, y)` into the mask, one bit per cell, skipping the centre. */
    method ShiftRow(x: int, y: int, dy: nat, prev: nat) returns (mask: nat)
      requires Valid() && dy < 5 && prev == MaskUpTo(view, x, y, 5 * dy)
      ensures mask == MaskUpTo(view, x, y, 5 * dy + 5)
    {
      ghost var p := view;
      mask := prev;
      for dx := 0 to 5
        invariant mask == MaskUpTo(p, x, y, 5 * dy + dx)
      {
        MaskUpToNext(p, x, y, 5 * dy + dx, dx, dy);
        if dx == 2 && dy == 2 {
          continue;
        }
        mask := mask * 2;
        if Get(x + dx - 2, y + dy - 2) != 0 {
          mask := mask + 1;
        }
      }
    }

    /**
     * From corner `(x, y)`, walks in the direction its rule gives, one pixel
     * at a time, to the next corner. Fails if `(x, y)` is no corner, if a step
     * lands on a dark pixel, or if a mask has no rule. With `checkOnly` it
     * only tells whether `(x, y)` is a corner.
     */
    method FindCorner(x: int, y: int, rules: Rules, checkOnly: bool) returns (found: bool, cx: int, cy: int)
      requires Valid() && Steady(rules)
      ensures checkOnly ==> found == IsStart(view, rules, Coord(x, y))
      ensures !checkOnly ==> found == NextCorner(view, rules, Coord(x, y)).Some?
      ensures !checkOnly && found ==> Coord(cx, cy) == NextCorner(view, rules, Coord(x, y)).value
    {
      cx, cy := x, y;
      var corner, dir, last := IsCorner(x, y, rules, DIR_NONE);
      if !corner {
        return false, cx, cy;
      }
      if checkOnly {
        return true, cx, cy;
      }
      while true
        invariant dir < 8
        invariant Walk(view, rules, Coord(cx, cy), dir) == NextCorner(view, rules, Coord(x, y))
        decreases Room(view, Coord(cx, cy), dir)
      {
        ghost var from := Coord(cx, cy);
        WalkStep(view, rules, from, dir);
        var (sx, sy) := Delta(dir);
        cx, cy := cx + sx, cy + sy;
        assert Coord(cx, cy) == Step(from, dir);
        if Get(cx, cy) == 0 {
          return false, cx, cy;
        }
        var turned: bool;
        turned, dir, last := IsCorner(cx, cy, rules, dir);
        if turned {
          return true, cx, cy;
        }
        if dir == DIR_NONE {
          return false, cx, cy;
        }
      }
    }

    /**
     * Traces the outline whose first corner is `(x, y)`: emits each corner
     * and walks to the next until back at the first, then emits the
     * sentinel. Fails at once if `(x, y)` is no corner, or when a walk fails;
     * gives up after `fuel` corners.
     */
    method Trace(x: int, y: int, rules: Rules, fuel: nat) returns (lines: seq<Coord>, ending: Ending)
      requires Valid() && Steady(rules)
      ensures (lines, ending) == TraceLines(view, rules, Coord(x, y), fuel)
    {
      ghost var origin := Coord(x, y);
      var start, _, _ := FindCorner(x, y, rules, true);
      if !start {
        return [], Broken;
      }
      var cx, cy := x, y;
      var left := fuel;
      lines := [];
      TraceBegin(view, rules, origin, fuel);
      while true
        invariant Tracing(view, rules, origin, fuel, lines, Coord(cx, cy), left)
        decreases left
      {
        if left == 0 {
          TraceOut(view, rules, origin, fuel, lines, Coord(cx, cy));
          return lines, Unfinished;
        }
        var found, nx, ny := TraceRound(origin, rules, fuel, lines, cx, cy, left);
        if !found {
          return lines + [Coord(cx, cy)], Broken;
        }
        if nx == x && ny == y {
          return lines + [Coord(cx, cy)] + [SENTINEL], Closed;
        }
        lines, cx, cy, left := lines + [Coord(cx, cy)], nx, ny, left - 1;
      }
    }

    /**
     * One round of the trace loop: corner `(cx, cy)` is written and the walk
     * goes to the next corner, which ends the outline if there is none or it
     * is the origin.
     */
    method TraceRound(ghost origin: Coord, rules: Rules, fuel: nat, lines: seq<Coord>, cx: int, cy: int, left: nat)
      returns (found: bool, nx: int, ny: int)
      requires Valid() && Steady(rules) && left > 0 && Tracing(view, rules, origin, fuel, lines, Coord(cx, cy), left)
      ensures !found ==> TraceLines(view, rules, origin, fuel) == (lines + [Coord(cx, cy)], Broken)
      ensures found && Coord(nx, ny) == origin
              ==> TraceLines(view, rules, origin, fuel) == (lines + [Coord(cx, cy)] + [SENTINEL], Closed)
      ensures found && Coord(nx, ny) != origin ==> Tracing(view, rules, origin, fuel, lines + [Coord(cx, cy)], Coord(nx, ny), left - 1)
    {
      found, nx, ny := FindCorner(cx, cy, rules, false);
      TraceAdvance(view, rules, origin, fuel, lines, Coord(cx, cy), left);
    }

    /**
     * Scans the image row by row; each lit pixel starts an outline, which is
     * traced and whose region is then erased. A trace that does not close
     * stops the scan. Returns the lines written and whether the scan ran to
     * the end.
     */
    method DoTrace(rules: Rules, fuel: nat) returns (lines: seq<Coord>, finished: bool)
      requires Valid() && Steady(rules)
      modifies this`view, data
      ensures Valid()
      ensures (lines, view, finished) == Scan(old(view), rules, fuel, 0, 0)
    {
      ghost var orig := view;
      lines := [];
      ScanBegin(orig, rules, fuel);
      if |data| == 0 {
        ScanEnd(orig, rules, fuel, [], view);
        return [], true;
      }
      for py := 0 to ph
        invariant Valid() && view.width == pw && view.height == ph
        invariant Scanning(orig, rules, fuel, lines, view, 0, py)
      {
        var stopped: bool;
        lines, stopped := ScanRow(rules, fuel, py, orig, lines);
        if stopped {
          return lines, false;
        }
      }
      ScanEnd(orig, rules, fuel, lines, view);
      finished := true;
    }

    /**
     * One row of the scan of `orig`, after lines `pre`: traces and erases
     * from each lit pixel in turn, and stops at the first outline that does
     * not close.
     */
    method ScanRow(rules: Rules, fuel: nat, py: nat, ghost orig: Plane, pre: seq<Coord>) returns (lines: seq<Coord>, stopped: bool)
      requires Valid() && Steady(rules) && py < ph && orig.Valid()
      requires Scanning(orig, rules, fuel, pre, view, 0, py)
      modifies this`view, data
      ensures Valid() && view.width == pw && view.height == ph
      ensures stopped ==> Scan(orig, rules, fuel, 0, 0) == (lines, view, false)
      ensures !stopped ==> Scanning(orig, rules, fuel, lines, view, 0, py + 1)
    {
      lines := pre;
      for px := 0 to pw
        invariant Valid() && view.width == pw && view.height == ph
        invariant Scanning(orig, rules, fuel, lines, view, px, py)
      {
        lines, stopped := Visit(rules, fuel, px, py, orig, lines);
        if stopped {
          return;
        }
      }
      ScanRowEnd(orig, rules, fuel, lines, view, py);
      stopped := false;
    }

    /**
     * One pixel of the scan of `orig`, after `lines`: a dark pixel is passed
     * over; a lit one starts an outline, which stops the scan unless it
     * closes, in which case its region is erased.
     */
    method Visit(rules: Rules, fuel: nat, px: nat, py: nat, ghost orig: Plane, pre: seq<Coord>) returns (lines: seq<Coord>, stopped: bool)
      requires Valid() && Steady(rules) && px < pw && py < ph && orig.Valid()
      requires Scanning(orig, rules, fuel, pre, view, px, py)
      modifies this`view, data
      ensures Valid() && view.width == pw && view.height == ph
      ensures stopped ==> Scan(orig, rules, fuel, 0, 0) == (lines, view, false)
      ensures !stopped ==> Scanning(orig, rules, fuel, lines, view, px + 1, py)
    {
      if Get(px, py) == 0 {
        ScanSkip(orig, rules, fuel, pre, view, px, py);
        return pre, false;
      }
      var pts, ending := Trace(px, py, rules, fuel);
      if ending != Closed {
        ScanStop(orig, rules, fuel, pre, view, px, py);
        return pre + pts, true;
      }
      ScanErase(orig, rules, fuel, pre, view, px, py);
      FloodErase(px, py);
      return pre + pts, false;
    }

    /**
     * One round of the erase loop: pops the top of the stack and, when that
     * pixel is lit, darkens it and pushes its four neighbours.
     */
    method EraseTop(ghost orig: Plane, ghost start: Coord, flood: seq<Coord>) returns (next: seq<Coord>)
      requires Valid() && orig.Valid() && view.width == orig.width && view.height == orig.height
      requires flood != [] && Progress(orig, view, start, flood)
      modifies this`view, data
      ensures Valid() && view.width == orig.width && view.height == orig.height
      ensures Progress(orig, view, start, next)
      ensures |LitSet(view)| < |LitSet(old(view))| || (view == old(view) && |next| < |flood|)
    {
      var cur := flood[|flood| - 1];
      next := flood[..|flood| - 1];
      assert flood == next + [cur];
      if Get(cur.x, cur.y) == 0 {
        PopDark(orig, view, start, next, cur);
        return;
      }
      ghost var before := view;
      Set(cur.x, cur.y, 0);
      DarkenShrinks(before, cur);
      PopLit(orig, before, view, start, next, cur);
      next := next + [Coord(cur.x - 1, cur.y), Coord(cur.x + 1, cur.y), Coord(cur.x, cur.y - 1), Coord(cur.x, cur.y + 1)];
    }
  }

  /** Pixel `c` still has its first value, or it was darkened and lies in the region of `start`. */
  ghost predicate Lowered(orig: Plane, view: Plane, start: Coord, c: Coord)
    requires orig.Valid() && view.Valid()
  {
    At(view, c.x, c.y) == At(orig, c.x, c.y) || (At(view, c.x, c.y) == 0 && InRegion(orig, start, c))
  }

  /** A stacked pixel that is still lit lies in the region of `start`. */
  ghost predicate Pending(orig: Plane, view: Plane, start: Coord, c: Coord)
    requires orig.Valid() && view.Valid()
  {
    Lit(view, c) ==> InRegion(orig, start, c)
  }

  /** Each neighbour of an erased pixel is dark or still on the stack. */
  predicate Guarded(view: Plane, flood: seq<Coord>, c: Coord)
    requires view.Valid()
  {
    && (Lit(view, Coord(c.x - 1, c.y)) ==> Coord(c.x - 1, c.y) in flood)
    && (Lit(view, Coord(c.x + 1, c.y)) ==> Coord(c.x + 1, c.y) in flood)
    && (Lit(view, Coord(c.x, c.y - 1)) ==> Coord(c.x, c.y - 1) in flood)
    && (Lit(view, Coord(c.x, c.y + 1)) ==> Coord(c.x, c.y + 1) in flood)
  }

  /**
   * What the erase loop keeps: only pixels of the region have been
   * darkened, lit stacked pixels are in the region, every lit neighbour of a
   * darkened pixel is stacked, and the start is darkened or stacked.
   */
  ghost predicate Progress(orig: Plane, view: Plane, start: Coord, flood: seq<Coord>)
    requires orig.Valid() && view.Valid()
  {
    && (forall c :: Lowered(orig, view, start, c))
    && (forall i :: 0 <= i < |flood| ==> Pending(orig, view, start, flood[i]))
    && (forall c :: Lit(orig, c) && !Lit(view, c) ==> Guarded(view, flood, c))
    && (Lit(view, start) ==> start in flood)
  }

  /** The erase loop starts with the invariant: nothing darkened and the start stacked. */
  lemma Begun(orig: Plane, start: Coord)
    requires orig.Valid()
    ensures Progress(orig, orig, start, [start])
  {
    RegionStart(orig, start);
  }

  /** Popping a dark pixel keeps the loop's invariant. */
  lemma PopDark(orig: Plane, view: Plane, start: Coord, flood: seq<Coord>, cur: Coord)
    requires orig.Valid() && view.Valid()
    requires Progress(orig, view, start, flood + [cur]) && !Lit(view, cur)
    ensures Progress(orig, view, start, flood)
  {
    forall i | 0 <= i < |flood|
      ensures Pending(orig, view, start, flood[i])
    {
      assert flood[i] == (flood + [cur])[i];
    }
    forall c | Lit(orig, c) && !Lit(view, c)
      ensures Guarded(view, flood, c)
    {
      assert Guarded(view, flood + [cur], c);
    }
  }

  /** Darkening a popped lit pixel and stacking its four neighbours keeps the loop's invariant. */
  lemma PopLit(orig: Plane, before: Plane, view: Plane, start: Coord, flood: seq<Coord>, cur: Coord)
    requires orig.Valid() && before.Valid() && Lit(before, cur)
    requires Progress(orig, before, start, flood + [cur])
    requires view == Put(before, cur.x, cur.y, 0)
    ensures Progress(orig, view, start, flood + [Coord(cur.x - 1, cur.y), Coord(cur.x + 1, cur.y), Coord(cur.x, cur.y - 1), Coord(cur.x, cur.y + 1)])
  {
    var stacked := flood + [cur];
    assert Pending(orig, before, start, stacked[|flood|]);
    forall i | 0 <= i < |flood|
      ensures Pending(orig, before, start, flood[i])
    {
      assert flood[i] == stacked[i];
    }
    PopLowered(orig, before, view, start, cur);
    PushedPending(orig, before, view, start, flood, cur);
    PopGuarded(orig, before, view, flood, cur);
    if Lit(view, start) {
      PutAt(before, cur.x, cur.y, 0, start.x, start.y);
      assert start in stacked;
    }
  }

  /** Darkening a pixel of the region keeps every pixel lowered. */
  lemma PopLowered(orig: Plane, before: Plane, view: Plane, start: Coord, cur: Coord)
    requires orig.Valid() && before.Valid() && InRegion(orig, start, cur)
    requires forall c :: Lowered(orig, before, start, c)
    requires view == Put(before, cur.x, cur.y, 0)
    ensures forall c :: Lowered(orig, view, start, c)
  {
    forall c
      ensures Lowered(orig, view, start, c)
    {
      PutAt(before, cur.x, cur.y, 0, c.x, c.y);
      assert Lowered(orig, before, start, c);
    }
  }

  /** After darkening `cur` and stacking its neighbours, every darkened pixel is guarded. */
  lemma PopGuarded(orig: Plane, before: Plane, view: Plane, flood: seq<Coord>, cur: Coord)
    requires orig.Valid() && before.Valid() && Lit(before, cur)
    requires forall c :: Lit(orig, c) && !Lit(before, c) ==> Guarded(before, flood + [cur], c)
    requires view == Put(before, cur.x, cur.y, 0)
    ensures var next := flood + [Coord(cur.x - 1, cur.y), Coord(cur.x + 1, cur.y), Coord(cur.x, cur.y - 1), Coord(cur.x, cur.y + 1)];
            forall c :: Lit(orig, c) && !Lit(view, c) ==> Guarded(view, next, c)
  {
    var pushed := [Coord(cur.x - 1, cur.y), Coord(cur.x + 1, cur.y), Coord(cur.x, cur.y - 1), Coord(cur.x, cur.y + 1)];
    forall c | Lit(orig, c) && !Lit(view, c)
      ensures Guarded(view, flood + pushed, c)
    {
      if c != cur {
        PutAt(before, cur.x, cur.y, 0, c.x, c.y);
        Unstacked(before, view, flood, cur, c);
      }
    }
  }

  /** After darkening `cur`, every lit pixel left on the stack, old or newly pushed, is in the region. */
  lemma PushedPending(orig: Plane, before: Plane, view: Plane, start: Coord, flood: seq<Coord>, cur: Coord)
    requires orig.Valid() && before.Valid() && InRegion(orig, start, cur)
    requires forall c :: Lowered(orig, before, start, c)
    requires forall i :: 0 <= i < |flood| ==> Pending(orig, before, start, flood[i])
    requires view == Put(before, cur.x, cur.y, 0)
    ensures var next := flood + [Coord(cur.x - 1, cur.y), Coord(cur.x + 1, cur.y), Coord(cur.x, cur.y - 1), Coord(cur.x, cur.y + 1)];
            forall i :: 0 <= i < |next| ==> Pending(orig, view, start, next[i])
  {
    var next := flood + [Coord(cur.x - 1, cur.y), Coord(cur.x + 1, cur.y), Coord(cur.x, cur.y - 1), Coord(cur.x, cur.y + 1)];
    forall i | 0 <= i < |next|
      ensures Pending(orig, view, start, next[i])
    {
      var n := next[i];
      PutAt(before, cur.x, cur.y, 0, n.x, n.y);
      if i < |flood| {
        assert n == flood[i];
      } else if Lit(view, n) {
        assert Lowered(orig, before, start, n);
        assert Adjacent(cur, n);
        RegionStep(orig, start, cur, n);
      }
    }
  }

  /** A guarded pixel stays guarded once the popped pixel is dark and more pixels are stacked. */
  lemma Unstacked(before: Plane, view: Plane, flood: seq<Coord>, cur: Coord, c: Coord)
    requires before.Valid() && view.Valid() && Lit(before, cur)
    requires view == Put(before, cur.x, cur.y, 0)
    requires Guarded(before, flood + [cur], c)
    ensures forall more :: Guarded(view, flood + more, c)
  {
    forall more
      ensures Guarded(view, flood + more, c)
    {
      var n := [Coord(c.x - 1, c.y), Coord(c.x + 1, c.y), Coord(c.x, c.y - 1), Coord(c.x, c.y + 1)];
      forall i | 0 <= i < 4
        ensures Lit(view, n[i]) ==> n[i] in flood + more
      {
        PutAt(before, cur.x, cur.y, 0, n[i].x, n[i].y);
      }
    }
  }

  /** Once the stack is empty, the plane is the original with the region of `start` erased. */
  lemma Settled(orig: Plane, view: Plane, start: Coord)
    requires orig.Valid() && view.Valid() && view.width == orig.width && view.height == orig.height
    requires Progress(orig, view, start, [])
    ensures view == Erased(orig, start)
  {
    forall c | Lit(orig, c) && !Lit(view, c)
      ensures Sealed(orig, view, c)
    {
      assert Guarded(view, [], c);
    }
    forall x', y'
      ensures At(view, x', y') == At(Erased(orig, start), x', y')
    {
      var c := Coord(x', y');
      assert Lowered(orig, view, start, c);
      if InRegion(orig, start, c) {
        RegionDarkened(orig, view, start, c);
      }
    }
    SamePixels(view, Erased(orig, start));
  }
}
