/**
 * Reading one sample out of a decoded PNG row. The row is a string of
 * bits, most significant bit of each byte first; a pixel of `channels`
 * samples of `depth` bits each occupies `depth * channels` consecutive
 * bits, and sixteen-bit samples are stored most significant byte first
 * (sections 7.1 and 7.2 of the PNG specification, ISO/IEC 15948).
 */
module PngSample {
  import opened Wrappers
  import opened Bits

  /** The depths a sample can have. */
  predicate ValidDepth(depth: nat) {
    depth == 1 || depth == 2 || depth == 4 || depth == 8 || depth == 16
  }

  /** Bit `i` of the row, counting from the most significant bit of the first byte. */
  function RowBit(row: seq<byte>, i: nat): (r: nat)
    requires i < 8 * |row|
    ensures r < 2
  {
    (row[i / 8] / Pow2(7 - i % 8)) % 2
  }

  /** The number spelled by bits `start .. start + n - 1` of the row, the first the most significant. */
  function Field(row: seq<byte>, start: nat, n: nat): (r: nat)
    requires start + n <= 8 * |row|
  {
    if n == 0 then 0 else 2 * Field(row, start, n - 1) + RowBit(row, start + n - 1)
  }

  /** Sample `k` of a row of `depth`-bit samples. */
  function Sample(row: seq<byte>, k: nat, depth: nat): nat
    requires (k + 1) * depth <= 8 * |row|
  {
    Field(row, k * depth, depth)
  }

  /** The sample of channel `c` of pixel `x` lies inside the row. */
  predicate InRow(row: seq<byte>, x: nat, c: nat, depth: nat, channels: nat) {
    (x * channels + c + 1) * depth <= 8 * |row|
  }

  /**
   * The sample of `depth` bits that starts `off` bits into byte `at`:
   * depths 1, 2 and 4 shift it down out of its byte and mask it, depth 8 is
   * the byte, depth 16 two bytes high first.
   */
  function Pick(row: seq<byte>, at: nat, off: nat, depth: nat): (r: nat)
    requires ValidDepth(depth) && at < |row|
    requires depth < 16 ==> off + depth <= 8
    requires depth == 16 ==> at + 1 < |row|
  {
    if depth == 1 then (row[at] / Pow2(7 - off)) % 2
    else if depth == 2 then (row[at] / Pow2(6 - off)) % 4
    else if depth == 4 then (row[at] / Pow2(4 - off)) % 16
    else if depth == 8 then row[at]
    else (row[at] as int) * 256 + row[at + 1] as int
  }

  /**
   * The byte and the bit within it where channel `c` of pixel `x` starts.
   * The bit offset is split at a multiple of 64 pixels: the high part counts
   * 8-byte units, the low part bits.
   */
  function BitPosition(x: nat, c: nat, depth: nat, channels: nat): (r: (nat, nat))
    ensures r.0 == (depth * (x * channels + c)) / 8
    ensures r.1 == (depth * (x * channels + c)) % 8
  {
    var hi := depth * ((x / 64) * channels);
    var lo := depth * ((x % 64) * channels + c);
    OffsetSplit(x, c, depth, channels);
    (hi * 8 + lo / 8, lo % 8)
  }

  /** Channel `c` of pixel `x`; any depth other than 1, 2, 4, 8 or 16 is refused. */
  function Component(row: seq<byte>, x: nat, c: nat, depth: nat, channels: nat): (r: Option<nat>)
    requires ValidDepth(depth) ==> InRow(row, x, c, depth, channels)
    ensures r.Some? <==> ValidDepth(depth)
  {
    if !ValidDepth(depth) then None
    else
      var (at, off) := BitPosition(x, c, depth, channels);
      SampleBytes(x * channels + c, depth, |row|);
      Some(Pick(row, at, off, depth))
  }

  /** A sample of at most eight bits is the field of its byte's bits. */
  lemma PickNarrow(row: seq<byte>, at: nat, off: nat, depth: nat)
    requires (depth == 1 || depth == 2 || depth == 4 || depth == 8) && at < |row| && off + depth <= 8
    ensures Pick(row, at, off, depth) == Field(row, 8 * at + off, depth)
  {
    var b := row[at];
    if depth == 1 {
      ByteField(row, at, off, 1);
      var shift := 7 - off;
      assert 8 - off - 1 == shift;
      assert Pow2(1) == 2;
      assert Field(row, 8 * at + off, 1) == (b / Pow2(shift)) % 2;
    } else if depth == 2 {
      ByteField(row, at, off, 2);
      var shift := 6 - off;
      assert 8 - off - 2 == shift;
      assert Pow2(2) == 4;
      assert Field(row, 8 * at + off, 2) == (b / Pow2(shift)) % 4;
    } else if depth == 4 {
      ByteField(row, at, off, 4);
      var shift := 4 - off;
      assert 8 - off - 4 == shift;
      assert Pow2(4) == 16;
      assert Field(row, 8 * at + off, 4) == (b / Pow2(shift)) % 16;
    } else {
      FieldOfByte(row, at, depth);
    }
  }

  /** The `n = 8` bits of a byte spell the byte. */
  lemma FieldOfByte(row: seq<byte>, a: nat, n: nat)
    requires a < |row| && n == 8
    ensures Field(row, 8 * a, n) == row[a]
  {
    ByteField(row, a, 0, n);
    var y: nat := row[a];
    var one := Pow2(8 - 0 - n);
    var whole := Pow2(n);
    assert one == 1 && whole == 256 by {
      Pow2Byte();
    }
    DivModUnique(y, one, y, 0);
    DivModUnique(y, whole, 0, y);
    assert 8 * a + 0 == 8 * a;
  }

  /** A byte spans eight bits. */
  lemma Pow2Byte()
    ensures Pow2(0) == 1 && Pow2(8) == 256
  {
  }

  /** A sample of `depth = 16` bits is the field of its two bytes' bits, high byte first. */
  lemma PickWide(row: seq<byte>, at: nat, depth: nat)
    requires at + 1 < |row| && depth == 16
    ensures Pick(row, at, 0, depth) == Field(row, 8 * at, depth)
  {
    var start := 8 * at;
    FieldSplit(row, start, 8, 8);
    Pow2Byte();
    FieldOfByte(row, at, 8);
    FieldOfByte(row, at + 1, 8);
    assert start + 8 == 8 * (at + 1);
  }

  /** The sample picked at a bit offset is the field of the row's bits starting there. */
  lemma PickIsField(row: seq<byte>, s: nat, depth: nat)
    requires ValidDepth(depth) && s + depth <= 8 * |row|
    requires depth < 16 ==> s % 8 + depth <= 8
    requires depth == 16 ==> s % 8 == 0
    ensures s / 8 < |row| && (depth == 16 ==> s / 8 + 1 < |row|)
    ensures Pick(row, s / 8, s % 8, depth) == Field(row, s, depth)
  {
    var at := s / 8;
    var off := s % 8;
    assert s == 8 * at + off;
    if depth < 16 {
      PickNarrow(row, at, off, depth);
    } else {
      PickWide(row, at, depth);
    }
  }

  /** The two parts of the split offset add up to the sample's bit offset. */
  lemma OffsetSplit(x: nat, c: nat, depth: nat, channels: nat)
    ensures var hi := depth * ((x / 64) * channels);
            var lo := depth * ((x % 64) * channels + c);
            && hi * 8 + lo / 8 == (depth * (x * channels + c)) / 8
            && lo % 8 == (depth * (x * channels + c)) % 8
  {
    var hi := depth * ((x / 64) * channels);
    var lo := depth * ((x % 64) * channels + c);
    var q := x / 64;
    assert x == 64 * q + x % 64;
    assert x * channels == 64 * q * channels + (x % 64) * channels;
    assert depth * (x * channels + c) == 64 * hi + lo;
    DivModUnique(depth * (x * channels + c), 8, hi * 8 + lo / 8, lo % 8);
  }

  /** A sample of 1, 2, 4 or 8 bits never straddles a byte. */
  lemma DepthAligned(k: nat, depth: nat)
    requires depth == 1 || depth == 2 || depth == 4 || depth == 8
    ensures (k * depth) % 8 % depth == 0 && (k * depth) % 8 + depth <= 8
  {
    if depth == 2 {
      DivModUnique(k * 2, 8, k / 4, (k % 4) * 2);
    } else if depth == 4 {
      DivModUnique(k * 4, 8, k / 2, (k % 2) * 4);
    } else if depth == 8 {
      DivModUnique(k * 8, 8, k, 0);
    }
  }

  /**
   * The bytes a sample touches lie in a row long enough for it: its first
   * byte, and for sixteen bits the one after, which it starts on a byte
   * boundary.
   */
  lemma SampleBytes(k: nat, depth: nat, len: nat)
    requires ValidDepth(depth) && (k + 1) * depth <= 8 * len
    ensures (depth * k) / 8 < len
    ensures depth < 16 ==> (depth * k) % 8 + depth <= 8
    ensures depth == 16 ==> (depth * k) % 8 == 0 && (depth * k) / 8 + 1 < len
  {
    var s := depth * k;
    assert (k + 1) * depth == s + depth;
    if depth < 16 {
      DepthAligned(k, depth);
      assert k * depth == s;
      DivModUnique(s, 8, s / 8, s % 8);
      assert 8 * (s / 8) + s % 8 + depth <= 8 * len;
    } else {
      DivModUnique(s, 8, 2 * k, 0);
    }
  }

  /** The low `n` bits of `y` are its low `n - 1` bits above its last bit. */
  lemma ModDouble(y: nat, n: nat)
    requires n >= 1
    ensures y % Pow2(n) == 2 * ((y / 2) % Pow2(n - 1)) + y % 2
  {
    var m := Pow2(n - 1);
    var h := y / 2;
    assert y == 2 * h + y % 2;
    assert h == (h / m) * m + h % m;
    assert y == (h / m) * (2 * m) + (2 * (h % m) + y % 2);
    DivModUnique(y, 2 * m, h / m, 2 * (h % m) + y % 2);
  }

  /** Bit `8 a + j` of the row is bit `j` of byte `a`, counting from the top. */
  lemma RowBitInByte(row: seq<byte>, a: nat, j: nat)
    requires a < |row| && j < 8
    ensures RowBit(row, 8 * a + j) == (row[a] / Pow2(7 - j)) % 2
  {
    DivModUnique(8 * a + j, 8, a, j);
  }

  /** One step of the byte-field induction, with every product named. */
  lemma ByteFieldStep(b: nat, m: nat, n: nat, prev: nat, bit: nat)
    requires m > 0 && n >= 1
    requires prev == (b / (2 * m)) % Pow2(n - 1) && bit == (b / m) % 2
    ensures 2 * prev + bit == (b / m) % Pow2(n)
  {
    DivTwice(b, m);
    ModDouble(b / m, n);
  }

  /** Bits `p .. p + n - 1` of byte `a` are the byte shifted down by `8 - p - n` and masked to `n` bits. */
  lemma {:induction false} ByteField(row: seq<byte>, a: nat, p: nat, n: nat)
    requires a < |row| && p + n <= 8
    ensures Field(row, 8 * a + p, n) == (row[a] / Pow2(8 - p - n)) % Pow2(n)
    decreases n
  {
    if n > 0 {
      ByteField(row, a, p, n - 1);
      var m := Pow2(8 - p - n);
      assert Pow2(8 - p - (n - 1)) == 2 * m;
      RowBitInByte(row, a, p + n - 1);
      assert 8 * a + p + n - 1 == 8 * a + (p + n - 1);
      ByteFieldStep(row[a], m, n, Field(row, 8 * a + p, n - 1), RowBit(row, 8 * a + p + n - 1));
    }
  }

  /** Shifting a sum left by one bit, with every product named. */
  lemma ShiftSum(high: nat, w: nat, low: nat, bit: nat)
    ensures 2 * (high * w + low) + bit == high * (2 * w) + (2 * low + bit)
  {
  }

  /** One more bit on both a whole field and its tail keeps the whole the head shifted over the tail. */
  lemma SplitStep(whole: nat, prev: nat, high: nat, w: nat, low: nat, bit: nat, tail: nat, pw: nat)
    requires prev == high * w + low && whole == 2 * prev + bit && tail == 2 * low + bit && pw == 2 * w
    ensures whole == high * pw + tail
  {
    ShiftSum(high, w, low, bit);
  }

  /** A field of `n + k` bits is its first `n` bits followed by the next `k`. */
  lemma {:induction false} FieldSplit(row: seq<byte>, start: nat, n: nat, k: nat)
    requires start + n + k <= 8 * |row|
    ensures Field(row, start, n + k) == Field(row, start, n) * Pow2(k) + Field(row, start + n, k)
    decreases k
  {
    if k > 0 {
      FieldSplit(row, start, n, k - 1);
      FieldSplitStep(row, start, n, k);
    }
  }

  /** The split of a field with `k - 1` trailing bits extends to `k` trailing bits. */
  lemma FieldSplitStep(row: seq<byte>, start: nat, n: nat, k: nat)
    requires k > 0 && start + n + k <= 8 * |row|
    requires Field(row, start, n + (k - 1)) == Field(row, start, n) * Pow2(k - 1) + Field(row, start + n, k - 1)
    ensures Field(row, start, n + k) == Field(row, start, n) * Pow2(k) + Field(row, start + n, k)
  {
    var high := Field(row, start, n);
    var low := Field(row, start + n, k - 1);
    var bit := RowBit(row, start + n + k - 1);
    var w := Pow2(k - 1);
    assert start + (n + k) - 1 == start + n + k - 1;
    SplitStep(Field(row, start, n + k), Field(row, start, n + k - 1), high, w, low, bit, Field(row, start + n, k), Pow2(k));
  }

  /**
   * The value `component` returns is the sample the PNG bit layout puts at
   * channel `c` of pixel `x`.
   */
  lemma ComponentIsSample(row: seq<byte>, x: nat, c: nat, depth: nat, channels: nat)
    requires ValidDepth(depth) && InRow(row, x, c, depth, channels)
    ensures Component(row, x, c, depth, channels) == Some(Sample(row, x * channels + c, depth))
  {
    SampleIsPick(row, x * channels + c, depth);
  }

  /** Sample `k` is what `Pick` reads at the sample's byte and bit. */
  lemma SampleIsPick(row: seq<byte>, k: nat, depth: nat)
    requires ValidDepth(depth) && (k + 1) * depth <= 8 * |row|
    ensures (depth * k) / 8 < |row| && (depth < 16 ==> (depth * k) % 8 + depth <= 8)
    ensures depth == 16 ==> (depth * k) / 8 + 1 < |row|
    ensures Pick(row, (depth * k) / 8, (depth * k) % 8, depth) == Sample(row, k, depth)
  {
    var s := depth * k;
    SampleBytes(k, depth, |row|);
    NextSample(k, depth);
    PickIsField(row, s, depth);
  }

  /** Sample `k + 1` starts `depth` bits after sample `k`. */
  lemma NextSample(k: nat, depth: nat)
    ensures (k + 1) * depth == depth * k + depth && k * depth == depth * k
  {
  }
}
