/**
 Finding a byte position for a sample position (vorbis/metadata.go): a table of one
 hundred cumulative entries and linear interpolation between them.  Floating-point
 arithmetic is taken over the reals.
 */
module SeekTables {
  import opened Positional

  const ENTRIES := 100

  /** The table starts below zero by one looked-up entry. */
  function Offset(lookup: byte -> nat, first: byte): int {
    0 - (lookup(first) as int)
  }

  /** Entry `n` of the table built from an offset and looked-up increments. */
  function Cumulative(lookup: byte -> nat, offset: int, idxs: seq<byte>, n: nat): int
    requires n < |idxs|
  {
    lookup(idxs[n]) + if n == 0 then offset else Cumulative(lookup, offset, idxs, n - 1)
  }

  ghost predicate Ascending(table: seq<int>) {
    forall i, j :: 0 <= i <= j < |table| ==> table[i] <= table[j]
  }

  lemma {:induction false} CumulativeAscends(lookup: byte -> nat, offset: int, idxs: seq<byte>, i: nat, j: nat)
    requires i <= j < |idxs|
    ensures Cumulative(lookup, offset, idxs, i) <= Cumulative(lookup, offset, idxs, j)
    decreases j
  {
    if i < j {
      CumulativeAscends(lookup, offset, idxs, i, j - 1);
    }
  }

  /**
   The table read from the metadata page; `lookup` is the table of unsigned 16-bit
   increments.  The entries ascend and none leaves the range of an int32.
   */
  method BuildTable(lookup: byte -> nat, first: byte, idxs: seq<byte>) returns (table: seq<int>)
    requires |idxs| == ENTRIES
    requires forall b :: lookup(b) < 0x1_0000
    ensures |table| == ENTRIES && Ascending(table)
    ensures forall i :: 0 <= i < ENTRIES ==> table[i] == Cumulative(lookup, Offset(lookup, first), idxs, i)
    ensures forall i :: 0 <= i < ENTRIES ==> -0x8000_0000 <= table[i] < 0x8000_0000
  {
    var offset := Offset(lookup, first);
    table := [];
    var cum := offset;
    for i := 0 to ENTRIES
      invariant |table| == i && cum == (if i == 0 then offset else table[i - 1])
      invariant forall k :: 0 <= k < i ==> table[k] == Cumulative(lookup, offset, idxs, k)
      invariant forall k :: 0 <= k < i ==> -0x1_0000 <= table[k] <= (k + 1) * 0x1_0000
    {
      cum := cum + lookup(idxs[i]);
      table := table + [cum];
    }
    forall i, j | 0 <= i <= j < ENTRIES
      ensures table[i] <= table[j]
    {
      CumulativeAscends(lookup, offset, idxs, i, j);
    }
  }

  /** Conversion of a float to an integer: towards zero. */
  function Truncate(x: real): int {
    if x >= 0.0 then x.Floor else -((-x).Floor)
  }

  /** The segment used for relative position `x`. */
  function Segment(x: real): (i: int)
    ensures 1 <= i <= ENTRIES - 1
  {
    var i := Truncate(x);
    if i <= 0 then 1 else if i > ENTRIES - 1 then ENTRIES - 1 else i
  }

  /** The line through two table entries, one apart, at distance `x` from the first. */
  function Line(prev: int, curr: int, x: real): real {
    ((curr - prev) as real) * x + prev as real
  }

  function Interpolate(table: seq<int>, x: real): real
    requires |table| == ENTRIES
  {
    var i := Segment(x);
    Line(table[i - 1], table[i], x - i as real)
  }

  /** The position in percent of the stream. */
  function Relative(samplesPos: int, seekSamples: nat): real
    requires seekSamples > 0
  {
    (samplesPos as real) * 100.0 / (seekSamples as real)
  }

  const SCALE := 0.00001525879

  /** The interpolated entry as a byte position, not below zero. */
  function ToBytes(entry: real, seekSize: nat): (r: int)
    ensures r >= 0
  {
    var bytesPos := entry * SCALE * (seekSize as real);
    if bytesPos < 0.0 then 0 else Truncate(bytesPos)
  }

  function GetSeekPosition(table: seq<int>, seekSamples: nat, seekSize: nat, samplesPos: int): (r: int)
    requires |table| == ENTRIES && seekSamples > 0
    ensures r >= 0
  {
    ToBytes(Interpolate(table, Relative(samplesPos, seekSamples)), seekSize)
  }

  // ----- what the numbers are

  /** The sum of the looked-up increments. */
  function Sum(lookup: byte -> nat, idxs: seq<byte>): nat {
    if idxs == [] then 0 else lookup(idxs[0]) + Sum(lookup, idxs[1..])
  }

  lemma {:induction false} SumSnoc(lookup: byte -> nat, idxs: seq<byte>, b: byte)
    ensures Sum(lookup, idxs + [b]) == Sum(lookup, idxs) + lookup(b)
  {
    if idxs == [] {
      assert idxs + [b] == [b] && [b][1..] == [];
    } else {
      assert (idxs + [b])[1..] == idxs[1..] + [b];
      SumSnoc(lookup, idxs[1..], b);
    }
  }

  /** An entry of the table is the sum of the increments up to it, less the looked-up offset. */
  lemma {:induction false} CumulativeIsSum(lookup: byte -> nat, first: byte, idxs: seq<byte>, n: nat)
    requires n < |idxs|
    ensures Cumulative(lookup, Offset(lookup, first), idxs, n) == Sum(lookup, idxs[..n + 1]) - lookup(first)
  {
    assert idxs[..n + 1] == idxs[..n] + [idxs[n]];
    SumSnoc(lookup, idxs[..n], idxs[n]);
    if n > 0 {
      CumulativeIsSum(lookup, first, idxs, n - 1);
    }
  }

  /**
   From k to k + 1 percent the value goes in a straight line from entry k - 1 to entry k,
   joints included; before one percent the first line goes on, and behind 99 the last.
   */
  lemma InterpolateExactly(table: seq<int>, k: nat, f: real)
    requires |table| == ENTRIES && 1 <= k <= 99
    requires 0.0 <= f <= 1.0 || (f < 0.0 && k == 1) || (f > 1.0 && k == 99)
    ensures Interpolate(table, k as real + f) == table[k - 1] as real + (table[k] - table[k - 1]) as real * f
  {
    var x := k as real + f;
    if f == 1.0 && k < 99 {
      assert Segment(x) == k + 1;
      LineEnds(table[k], table[k + 1]);
      LineEnds(table[k - 1], table[k]);
    } else {
      assert Segment(x) == k;
      assert x - k as real == f;
    }
  }

  lemma LineEnds(prev: int, curr: int)
    ensures Line(prev, curr, 0.0) == prev as real && Line(prev, curr, 1.0) == curr as real
  {
  }

  /** At exactly k percent of the samples the byte position is that of entry k - 1: so many 65536ths of the size, rounded down. */
  lemma SeekAtPercent(table: seq<int>, seekSamples: nat, seekSize: nat, samplesPos: int, k: nat)
    requires |table| == ENTRIES && seekSamples > 0 && 1 <= k <= 100 && samplesPos * 100 == k * seekSamples
    ensures var r := GetSeekPosition(table, seekSamples, seekSize, samplesPos);
            var bytes := table[k - 1] as real * 0.00001525879 * seekSize as real;
            if bytes < 0.0 then r == 0 else r as real <= bytes < r as real + 1.0
  {
    RelativeIs(samplesPos, seekSamples, k);
    if k < 100 {
      InterpolateExactly(table, k, 0.0);
    } else {
      InterpolateExactly(table, 99, 1.0);
    }
    LineEnds(0, table[k - 1]);
  }

  lemma RelativeIs(samplesPos: int, seekSamples: nat, k: nat)
    requires seekSamples > 0 && samplesPos * 100 == k * seekSamples
    ensures Relative(samplesPos, seekSamples) == k as real
  {
    var n := seekSamples as real;
    assert (samplesPos * 100) as real == (k * seekSamples) as real;
    assert (samplesPos as real) * 100.0 == (k as real) * n;
    Cancel(k as real, n);
  }

  lemma Cancel(x: real, n: real)
    requires n > 0.0
    ensures x * n / n == x
  {
  }

  /** An entry of 65536 is the whole file, as long as that is below sixteen million bytes. */
  lemma WholeFile(seekSize: nat)
    requires seekSize < 16_000_000
    ensures ToBytes(65536.0, seekSize) == seekSize
  {
    var n := seekSize as real;
    assert 65536.0 * SCALE * n == n + 0.00000006144 * n by { Expand(n); }
    assert 0.0 <= 0.00000006144 * n < 1.0;
  }

  lemma Expand(n: real)
    ensures 65536.0 * SCALE * n == n + 0.00000006144 * n
  {
    assert 65536.0 * SCALE == 1.00000006144;
  }

  // ----- monotone

  lemma SegmentMonotone(x: real, y: real)
    requires x <= y
    ensures Segment(x) <= Segment(y)
    ensures Segment(x) < Segment(y) ==> x < (Segment(x) + 1) as real && y >= Segment(y) as real
  {
  }

  lemma Slope(k: real, a: real, b: real)
    requires k >= 0.0 && a <= b
    ensures k * a <= k * b
  {
  }

  lemma StrictSlope(k: real, a: real, b: real)
    requires k > 0.0 && a < b
    ensures k * a < k * b
  {
    assert k * (b - a) > 0.0;
  }

  /** Within a segment the slope is not negative; at a joint both sides give the table entry. */
  lemma InterpolateMonotone(table: seq<int>, x: real, y: real)
    requires |table| == ENTRIES && Ascending(table) && x <= y
    ensures Interpolate(table, x) <= Interpolate(table, y)
  {
    SegmentMonotone(x, y);
    var i, j := Segment(x), Segment(y);
    if i == j {
      LineAscends(table[i - 1], table[i], x - i as real, y - i as real);
    } else {
      LineAscends(table[i - 1], table[i], x - i as real, 1.0);
      LineAscends(table[j - 1], table[j], 0.0, y - j as real);
      assert table[i] <= table[j - 1];
    }
  }

  lemma LineAscends(prev: int, curr: int, a: real, b: real)
    requires prev <= curr && a <= b
    ensures Line(prev, curr, a) <= Line(prev, curr, b)
    ensures Line(prev, curr, 0.0) == prev as real && Line(prev, curr, 1.0) == curr as real
  {
    Slope((curr - prev) as real, a, b);
  }

  lemma TruncateMonotone(x: real, y: real)
    requires x <= y
    ensures Truncate(x) <= Truncate(y)
  {
  }

  /** A later sample never maps to an earlier byte, over clamped ends and segment joints alike. */
  lemma SeekMonotone(table: seq<int>, seekSamples: nat, seekSize: nat, p: int, q: int)
    requires |table| == ENTRIES && Ascending(table) && seekSamples > 0 && p <= q
    ensures GetSeekPosition(table, seekSamples, seekSize, p) <= GetSeekPosition(table, seekSamples, seekSize, q)
  {
    var x, y := Relative(p, seekSamples), Relative(q, seekSamples);
    RelativeMonotone(p, q, seekSamples);
    InterpolateMonotone(table, x, y);
    ToBytesMonotone(Interpolate(table, x), Interpolate(table, y), seekSize);
  }

  lemma ToBytesMonotone(a: real, b: real, seekSize: nat)
    requires a <= b
    ensures ToBytes(a, seekSize) <= ToBytes(b, seekSize)
  {
    var n, x, y := seekSize as real, a * SCALE, b * SCALE;
    Slope(n, x, y);
    assert x * n == n * x && y * n == n * y;
    TruncateMonotone(x * n, y * n);
    assert x * n >= 0.0 ==> Truncate(x * n) >= 0;
  }

  lemma RelativeMonotone(p: int, q: int, n: nat)
    requires n > 0 && p <= q
    ensures Relative(p, n) <= Relative(q, n)
  {
    var x, y, d := Relative(p, n), Relative(q, n), n as real;
    assert x * d == (p as real) * 100.0 && y * d == (q as real) * 100.0;
    if x > y {
      StrictSlope(d, y, x);
      assert false;
    }
  }
}
