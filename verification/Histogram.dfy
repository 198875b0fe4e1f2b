/** Model of the latency histograms: `spdk_histogram_data_tally` in
    spdk/include/spdk/histogram_data.h fills the buckets, spdk/scripts/histogram.py reads
    them back and prints one line for every bucket with its bounds and running total. */
module Histogram {
  import opened Bytes
  import opened Common

  lemma {:induction false} Pow2Sum(a: nat, b: nat)
    ensures Pow2(a + b) == Pow2(a) * Pow2(b)
  {
    if b > 0 {
      Pow2Sum(a, b - 1);
      assert Pow2(a + b) == 2 * Pow2(a + (b - 1));
      assert 2 * (Pow2(a) * Pow2(b - 1)) == Pow2(a) * (2 * Pow2(b - 1));
    }
  }

  lemma Pow2Of63()
    ensures Pow2(63) == 0x8000_0000_0000_0000 && Pow2(64) == TWO64
  {
    assert Pow2(8) == 0x100 && Pow2(16) == 0x1_0000 && Pow2(24) == 0x100_0000 && Pow2(32) == 0x1_0000_0000;
    assert Pow2(40) == 0x100_0000_0000 && Pow2(48) == 0x1_0000_0000_0000 && Pow2(56) == 0x100_0000_0000_0000;
  }

  // ---------------------------------------------------------------- bucket bounds

  /** The end of bucket j of range i as the script computes it. */
  function End(s: nat, i: nat, j: nat): nat {
    if i > 0 then Pow2(i + s - 1) + (j + 1) * Pow2(i - 1) else j + 1
  }

  /** The start of a bucket: the end of the one before it in the script's order. */
  function Start(s: nat, i: nat, j: nat): nat {
    if i > 0 then Pow2(i + s - 1) + j * Pow2(i - 1) else j
  }

  /** The width of the buckets of range i. */
  function Width(i: nat): nat {
    if i > 0 then Pow2(i - 1) else 1
  }

  lemma StartPlusWidth(s: nat, i: nat, j: nat)
    ensures End(s, i, j) == Start(s, i, j) + Width(i)
    ensures Start(s, i, j + 1) == End(s, i, j)
    ensures Start(s, i, 0) == if i > 0 then Pow2(i + s - 1) else 0
  {
    if i > 0 {
      assert (j + 1) * Pow2(i - 1) == j * Pow2(i - 1) + Pow2(i - 1);
    }
  }

  lemma Doubles(n: nat)
    ensures Pow2(n + 1) == 2 * Pow2(n)
  {}

  lemma TimesCommutes(a: int, b: int)
    ensures a * b == b * a
  {}

  /** A range ends where the next one starts. */
  lemma RangesMeet(s: nat, i: nat)
    ensures Start(s, i, Pow2(s)) == Start(s, i + 1, 0)
  {
    hide Pow2;
    StartPlusWidth(s, i + 1, 0);
    if i > 0 {
      Pow2Sum(i - 1, s);
      TimesCommutes(Pow2(s), Pow2(i - 1));
      assert i - 1 + s == i + s - 1;
      Doubles(i + s - 1);
    } else {
      assert i + 1 + s - 1 == s;
    }
  }

  /** Resolution: a bucket is one value wide or at most a 2^s-th of its start. */
  lemma WidthBound(s: nat, i: nat, j: nat)
    ensures Width(i) <= 1 || Width(i) * Pow2(s) <= Start(s, i, j)
  {
    if i > 0 {
      Pow2Sum(i - 1, s);
      assert i - 1 + s == i + s - 1;
      Product(j, Pow2(i - 1));
    }
  }

  lemma Product(a: nat, b: nat)
    ensures a * b >= 0
  {}

  // ---------------------------------------------------------------- the buckets a value falls into

  /** Number of significant bits: 64 minus the count of leading zeros. */
  function BitLength(x: nat): nat {
    if x == 0 then 0 else 1 + BitLength(x / 2)
  }

  lemma {:induction false} BitLengthBounds(x: nat)
    ensures x < Pow2(BitLength(x))
    ensures x > 0 ==> BitLength(x) > 0 && Pow2(BitLength(x) - 1) <= x
  {
    if x > 0 {
      BitLengthBounds(x / 2);
      Doubles(BitLength(x / 2));
      if x / 2 > 0 {
        Doubles(BitLength(x / 2) - 1);
      }
    }
  }

  lemma {:induction false} BitLengthUnique(x: nat, n: nat)
    requires n > 0 && Pow2(n - 1) <= x < Pow2(n)
    ensures BitLength(x) == n
  {
    if n > 1 {
      BitLengthUnique(x / 2, n - 1);
    } else {
      assert x == 1;
    }
  }

  lemma {:induction false} BitLengthAtMost(x: nat, n: nat)
    ensures BitLength(x) <= n <==> x < Pow2(n)
  {
    if n > 0 && x > 0 {
      BitLengthAtMost(x / 2, n - 1);
    }
  }

  /** Model of `__spdk_histogram_data_get_bucket_range`. */
  function BucketRange(s: nat, x: nat): nat
    requires s <= 64 && x < TWO64
  {
    Fits64(x);
    var clz := 64 - BitLength(x);
    if clz <= 64 - s then 64 - s - clz else 0
  }

  lemma Fits64(x: nat)
    requires x < TWO64
    ensures BitLength(x) <= 64
  {
    Pow2Of63();
    BitLengthAtMost(x, 64);
  }

  /** Model of `__spdk_histogram_data_get_bucket_index`. */
  function BucketIndex(s: nat, x: nat, range: nat): nat {
    x / Pow2(if range == 0 then 0 else range - 1) % Pow2(s)
  }

  lemma RangeZero(s: nat, x: nat)
    requires s <= 64 && x < TWO64
    ensures BucketRange(s, x) == 0 <==> x < Pow2(s)
  {
    Fits64(x);
    BitLengthAtMost(x, s);
  }

  /** Division of a range of d buckets, each w wide, that starts at w * d. */
  lemma LandsInRange(x: nat, w: nat, d: nat)
    requires w > 0 && d > 0 && w * d <= x < 2 * (w * d)
    ensures var j := x / w % d; j < d && w * d + j * w <= x < w * d + (j + 1) * w
  {
    var q, r := x / w, x % w;
    QuotientRange(x, w, d);
    Wraps(q, d);
    assert x == w * q + r;
    TimesMinus(w, q, d);
    assert (q - d + 1) * w == (q - d) * w + w;
  }

  lemma LandsInFirst(s: nat, x: nat)
    requires x < Pow2(s)
    ensures var j := BucketIndex(s, x, 0); j < Pow2(s) && Start(s, 0, j) <= x < End(s, 0, j)
  {
    hide Pow2;
    Pow2Zero();
    Small(x, Pow2(s));
  }

  lemma LandsInLater(s: nat, x: nat, i: nat)
    requires i > 0 && Pow2(i + s - 1) <= x < Pow2(i + s)
    ensures var j := BucketIndex(s, x, i); j < Pow2(s) && Start(s, i, j) <= x < End(s, i, j)
  {
    hide Pow2;
    Doubles(i + s - 1);
    Pow2Sum(i - 1, s);
    assert i - 1 + s == i + s - 1;
    LandsInRange(x, Pow2(i - 1), Pow2(s));
  }

  /** The bucket a value is tallied in contains the value. */
  lemma TallyLands(s: nat, x: nat)
    requires s <= 63 && x < TWO64
    ensures var i := BucketRange(s, x); var j := BucketIndex(s, x, i);
            i <= 64 - s && j < Pow2(s) && Start(s, i, j) <= x < End(s, i, j)
  {
    hide Pow2, BitLength, BucketRange, BucketIndex, Start, End;
    var i := BucketRange(s, x);
    RangeZero(s, x);
    RangeIs(s, x);
    if i == 0 {
      LandsInFirst(s, x);
    } else {
      BitLengthBounds(x);
      LandsInLater(s, x, i);
    }
  }

  /** No other bucket contains it. */
  lemma OnlyBucket(s: nat, i: nat, j: nat, x: nat)
    requires s <= 63 && x < TWO64
    requires j < Pow2(s) && Start(s, i, j) <= x < End(s, i, j)
    ensures i == BucketRange(s, x) && j == BucketIndex(s, x, i)
  {
    hide Pow2, BitLength, BucketRange;
    RangeZero(s, x);
    RangeIs(s, x);
    if i == 0 {
      Pow2Zero();
      Small(x, Pow2(s));
    } else {
      var w, d := Pow2(i - 1), Pow2(s);
      assert i - 1 + s == i + s - 1;
      Pow2Sum(i - 1, s);
      Doubles(i + s - 1);
      InsideRange(x, w, d, j);
      BitLengthUnique(x, i + s);
      BitLengthAtMost(x, s);
    }
  }

  /** A value in bucket j of a range of d buckets, each w wide, that starts at w * d. */
  lemma InsideRange(x: nat, w: nat, d: nat, j: nat)
    requires w > 0 && j < d && w * d + j * w <= x < w * d + (j + 1) * w
    ensures w * d <= x < 2 * (w * d)
    ensures x / w % d == j
  {
    Product(j, w);
    TimesGrows(j + 1, d, w);
    TimesCommutes(d, w);
    NextTimes(j, w);
    PlusTimes(w, d, j);
    DivUnique(x, w, d + j, x - w * (d + j));
    Wraps(d + j, d);
  }

  lemma NextTimes(j: nat, w: nat)
    ensures (j + 1) * w == j * w + w
  {}

  lemma PlusTimes(w: nat, d: nat, j: nat)
    ensures w * (d + j) == w * d + j * w
  {}

  lemma Pow2Zero()
    ensures Pow2(0) == 1
  {}

  lemma RangeIs(s: nat, x: nat)
    requires s <= 64 && x < TWO64
    ensures BucketRange(s, x) <= 64 - s
    ensures BucketRange(s, x) > 0 ==> BitLength(x) == BucketRange(s, x) + s
  {
    Fits64(x);
  }

  lemma Small(x: nat, d: nat)
    requires x < d
    ensures x / 1 % d == x
  {}

  lemma Wraps(q: nat, d: nat)
    requires d <= q < 2 * d
    ensures q % d == q - d
  {
    DivUnique(q, d, 1, q - d);
  }

  lemma TimesMinus(w: nat, q: nat, d: nat)
    ensures w * q == w * d + (q - d) * w
  {}

  lemma QuotientRange(x: nat, w: nat, d: nat)
    requires w > 0 && w * d <= x < 2 * (w * d)
    ensures d <= x / w < 2 * d
  {
    var q := x / w;
    assert x == w * q + x % w;
    assert w * d < w * (q + 1) by { assert w * (q + 1) == w * q + w; }
    LessFromTimes(w, d, q + 1);
    assert w * q < w * (2 * d) by { assert w * (2 * d) == 2 * (w * d); }
    LessFromTimes(w, q, 2 * d);
  }

  // ---------------------------------------------------------------- slots

  /** Range of slot k of the flat bucket array, with d buckets in each range. */
  function RangeOf(k: nat, d: nat): nat
    requires d > 0
  {
    k / d
  }

  /** Index of slot k within its range. */
  function IndexOf(k: nat, d: nat): (j: nat)
    requires d > 0
    ensures j < d && k == d * RangeOf(k, d) + j
  {
    k % d
  }

  /** Bounds of slot k of the flat bucket array. */
  function SlotStart(s: nat, k: nat): nat {
    Start(s, RangeOf(k, Pow2(s)), IndexOf(k, Pow2(s)))
  }

  function SlotEnd(s: nat, k: nat): nat {
    End(s, RangeOf(k, Pow2(s)), IndexOf(k, Pow2(s)))
  }

  lemma SlotOf(s: nat, i: nat, j: nat)
    requires j < Pow2(s)
    ensures i * Pow2(s) + j >= 0
    ensures RangeOf(i * Pow2(s) + j, Pow2(s)) == i && IndexOf(i * Pow2(s) + j, Pow2(s)) == j
  {
    Product(i, Pow2(s));
    TimesCommutes(i, Pow2(s));
    DivUnique(i * Pow2(s) + j, Pow2(s), i, j);
  }

  /** Every slot ends where the next one starts, and none is empty. */
  lemma SlotsTile(s: nat, k: nat)
    ensures SlotStart(s, 0) == 0
    ensures SlotStart(s, k) < SlotEnd(s, k) == SlotStart(s, k + 1)
  {
    hide Pow2, Start, End;
    var d := Pow2(s);
    var i, j := RangeOf(k, d), IndexOf(k, d);
    TimesCommutes(d, i);
    StartPlusWidth(s, i, j);
    ZeroSlot(s);
    WidthPositive(i);
    if j + 1 < d {
      SlotOf(s, i, j + 1);
    } else {
      assert (i + 1) * d == i * d + d;
      SlotOf(s, i + 1, 0);
      RangesMeet(s, i);
    }
  }

  lemma ZeroSlot(s: nat)
    ensures SlotStart(s, 0) == 0
  {
    hide Pow2;
    SlotOf(s, 0, 0);
    assert 0 * Pow2(s) == 0;
  }

  lemma WidthPositive(i: nat)
    ensures Width(i) > 0
  {}

  /** The slots the script visits. */
  function SlotCount(s: nat): nat
    requires s <= 64
  {
    (64 - s) * Pow2(s)
  }

  /** They reach from 0 to 2^63. */
  lemma SlotsReach(s: nat)
    requires s <= 63
    ensures SlotStart(s, SlotCount(s)) == Pow2(63)
  {
    hide Pow2;
    SlotOf(s, 64 - s, 0);
    StartPlusWidth(s, 64 - s, 0);
    assert 64 - s + s - 1 == 63;
  }

  /** Slot of a value in the C code. */
  function Slot(s: nat, x: nat): nat
    requires s <= 64 && x < TWO64
  {
    var i := BucketRange(s, x);
    i * Pow2(s) + BucketIndex(s, x, i)
  }

  /** A value is tallied in the one slot whose bounds enclose it. */
  lemma SlotIffBounds(s: nat, x: nat, k: nat)
    requires s <= 63 && x < TWO64
    ensures Slot(s, x) == k <==> SlotStart(s, k) <= x < SlotEnd(s, k)
  {
    hide Pow2, Start, End, BucketRange, BucketIndex;
    var i := BucketRange(s, x);
    var j := BucketIndex(s, x, i);
    TallyLands(s, x);
    SlotOf(s, i, j);
    if SlotStart(s, k) <= x < SlotEnd(s, k) {
      OnlyBucket(s, RangeOf(k, Pow2(s)), IndexOf(k, Pow2(s)), x);
      TimesCommutes(Pow2(s), RangeOf(k, Pow2(s)));
    }
  }

  // ---------------------------------------------------------------- bytes

  /** `h[i:j]` of Python, cut off at the end of h. */
  function Slice(h: seq<u8>, i: nat, j: nat): seq<u8>
    requires i <= j
  {
    h[if i <= |h| then i else |h| .. if j <= |h| then j else |h|]
  }

  function Count(h: seq<u8>, k: nat): nat {
    FromLe(Slice(h, 8 * k, 8 * k + 8))
  }

  /** Sum of the first n counts. */
  function Sum(h: seq<u8>, n: nat): nat {
    if n == 0 then 0 else Sum(h, n - 1) + Count(h, n - 1)
  }

  // ---------------------------------------------------------------- the script

  /** One line of the report; the script prints those with a count. */
  datatype Line = Line(start: nat, end: nat, soFar: nat, count: nat)

  function LineOf(h: seq<u8>, s: nat, k: nat): Line {
    Line(SlotStart(s, k), SlotEnd(s, k), Sum(h, k + 1), Count(h, k))
  }

  /** The first pair of nested loops. */
  method Total(h: seq<u8>, s: nat) returns (total: nat)
    requires s <= 64
    ensures total == 1 + Sum(h, SlotCount(s))
  {
    hide Pow2, Count;
    total := 1;
    for i := 0 to 64 - s
      invariant i * Pow2(s) >= 0 && total == 1 + Sum(h, i * Pow2(s))
    {
      assert (i + 1) * Pow2(s) == i * Pow2(s) + Pow2(s);
      for j := 0 to Pow2(s)
        invariant total == 1 + Sum(h, i * Pow2(s) + j)
      {
        total := total + Count(h, i * Pow2(s) + j);
      }
    }
  }

  /** The second pair of nested loops: every slot once, in order, with its bounds. */
  method Report(h: seq<u8>, s: nat) returns (soFar: nat, lines: seq<Line>)
    requires s <= 64
    ensures soFar == Sum(h, SlotCount(s))
    ensures |lines| == SlotCount(s)
    ensures forall k :: 0 <= k < |lines| ==> lines[k] == LineOf(h, s, k)
  {
    hide Pow2, Count, Start, SlotStart, SlotEnd;
    soFar, lines := 0, [];
    var bucket := 0;
    StartPlusWidth(s, 0, 0);
    for i := 0 to 64 - s
      invariant i * Pow2(s) >= 0 && |lines| == i * Pow2(s)
      invariant soFar == Sum(h, |lines|)
      invariant bucket == Start(s, i, 0)
      invariant forall k :: 0 <= k < |lines| ==> lines[k] == LineOf(h, s, k)
    {
      assert (i + 1) * Pow2(s) == i * Pow2(s) + Pow2(s);
      for j := 0 to Pow2(s)
        invariant |lines| == i * Pow2(s) + j
        invariant soFar == Sum(h, |lines|)
        invariant bucket == Start(s, i, j)
        invariant forall k :: 0 <= k < |lines| ==> lines[k] == LineOf(h, s, k)
      {
        var count := Count(h, i * Pow2(s) + j);
        soFar := soFar + count;
        var lastBucket := bucket;
        StartPlusWidth(s, i, j);
        BoundsOf(s, i, j);
        if i > 0 {
          bucket := Pow2(i + s - 1);
          bucket := bucket + (j + 1) * Pow2(i - 1);
        } else {
          bucket := j + 1;
        }
        assert bucket == End(s, i, j);
        lines := lines + [Line(lastBucket, bucket, soFar, count)];
      }
      RangesMeet(s, i);
    }
  }

  lemma BoundsOf(s: nat, i: nat, j: nat)
    requires j < Pow2(s)
    ensures SlotStart(s, i * Pow2(s) + j) == Start(s, i, j)
    ensures SlotEnd(s, i * Pow2(s) + j) == End(s, i, j)
  {
    SlotOf(s, i, j);
  }

  /** The printed ranges tile [0, 2^63), and the last running total is `total - 1`. */
  lemma ReportTiles(h: seq<u8>, s: nat, k: nat)
    requires s <= 63 && k < SlotCount(s)
    ensures LineOf(h, s, 0).start == 0
    ensures LineOf(h, s, k).start < LineOf(h, s, k).end == LineOf(h, s, k + 1).start
    ensures LineOf(h, s, SlotCount(s) - 1).end == Pow2(63)
    ensures LineOf(h, s, SlotCount(s) - 1).soFar == Sum(h, SlotCount(s))
    ensures var l := LineOf(h, s, k); l.end - l.start <= 1 || (l.end - l.start) * Pow2(s) <= l.start
  {
    hide Pow2, Start, End, SlotStart, SlotEnd, SlotCount, Count;
    SlotsTile(s, k);
    SlotsTile(s, SlotCount(s) - 1);
    SlotsReach(s);
    SlotWidth(s, k);
  }

  lemma SlotWidth(s: nat, k: nat)
    ensures var w := SlotEnd(s, k) - SlotStart(s, k); w <= 1 || w * Pow2(s) <= SlotStart(s, k)
  {
    hide Pow2, Start, End;
    StartPlusWidth(s, RangeOf(k, Pow2(s)), IndexOf(k, Pow2(s)));
    WidthBound(s, RangeOf(k, Pow2(s)), IndexOf(k, Pow2(s)));
  }

  // ---------------------------------------------------------------- tallying

  /** The C code numbers its buckets in 32 bits; that many there may be. */
  predicate ShiftOk(s: nat) {
    s <= 63 && BucketCount(s) <= TWO32
  }

  function BucketCount(s: nat): nat
    requires s <= 63
  {
    (65 - s) * Pow2(s)
  }

  lemma SlotInArray(s: nat, x: nat)
    requires s <= 63 && x < TWO64
    ensures Slot(s, x) < BucketCount(s)
  {
    hide Pow2, Start, End, BucketRange, BucketIndex;
    TallyLands(s, x);
    var i := BucketRange(s, x);
    assert (i + 1) * Pow2(s) == i * Pow2(s) + Pow2(s);
    TimesGrows(i + 1, 65 - s, Pow2(s));
  }

  /** The bucket array after one more value. */
  function Tallied(s: nat, buckets: seq<nat>, x: nat): (b: seq<nat>)
    requires s <= 63 && x < TWO64 && |buckets| == BucketCount(s)
    ensures |b| == |buckets|
  {
    SlotInArray(s, x);
    Bumped(buckets, Slot(s, x))
  }

  function Bumped(buckets: seq<nat>, k: nat): (b: seq<nat>)
    requires k < |buckets|
    ensures |b| == |buckets|
  {
    buckets[k := (buckets[k] + 1) % TWO64]
  }

  /** The bucket array after a whole run, starting from zero. */
  function TalliedAll(s: nat, xs: seq<nat>): (b: seq<nat>)
    requires s <= 63 && Values(xs)
    ensures |b| == BucketCount(s)
  {
    if xs == [] then NoCounts(BucketCount(s)) else Tallied(s, TalliedAll(s, xs[..|xs| - 1]), xs[|xs| - 1])
  }

  function NoCounts(n: nat): (z: seq<nat>)
    ensures |z| == n
    ensures forall i :: 0 <= i < |z| ==> z[i] == 0
  {
    if n == 0 then [] else NoCounts(n - 1) + [0]
  }

  predicate Values(xs: seq<nat>) {
    forall i :: 0 <= i < |xs| ==> xs[i] < TWO64
  }

  /** Model of `struct spdk_histogram_data`. */
  /** The slot number that the C code computes, in 32 bits. */
  function Slot32(s: nat, x: nat): nat
    requires s <= 63 && x < TWO64
  {
    var i := BucketRange(s, x);
    (i * Pow2(s) + BucketIndex(s, x, i)) % TWO32
  }

  /** All buckets together reach up to 2^64. */
  lemma BucketsReach(s: nat)
    requires s <= 63
    ensures SlotStart(s, BucketCount(s)) == TWO64
  {
    hide Pow2;
    Pow2Of63();
    SlotOf(s, 65 - s, 0);
    StartPlusWidth(s, 65 - s, 0);
    assert 65 - s + s - 1 == 64;
  }

  /** It is the right one for every value exactly if there are at most 2^32 buckets. */
  lemma SlotFitsIff(s: nat)
    requires s <= 63
    ensures (forall x: nat :: x < TWO64 ==> Slot32(s, x) == Slot(s, x)) <==> ShiftOk(s)
  {
    hide Pow2, BucketRange, BucketIndex, BucketCount, SlotStart, SlotEnd;
    if ShiftOk(s) {
      forall x: nat | x < TWO64 ensures Slot32(s, x) == Slot(s, x) { SlotInArray(s, x); }
    } else {
      var x, k := TWO64 - 1, BucketCount(s) - 1;
      BucketsReach(s);
      SlotsTile(s, k);
      SlotIffBounds(s, x, k);
      assert Slot32(s, x) < TWO32;
    }
  }

  class HistogramData {
    const shift: nat
    const bucket: array<nat>

    constructor (s: nat)
      requires ShiftOk(s)
      ensures shift == s && fresh(bucket)
      ensures bucket[..] == TalliedAll(s, [])
    {
      shift := s;
      var n := BucketCount(s);
      var b := new nat[n](i => 0);
      bucket := b;
      assert b[..] == NoCounts(n);
    }

    /** Model of `spdk_histogram_data_tally`: range, index and slot are 32-bit numbers. */
    method Tally(x: nat)
      requires ShiftOk(shift) && x < TWO64 && bucket.Length == BucketCount(shift)
      modifies bucket
      ensures bucket[..] == Tallied(shift, old(bucket[..]), x)
    {
      hide Pow2, BucketRange, BucketIndex, BucketCount;
      SlotInArray(shift, x);
      SlotFitsIff(shift);
      var slot := Slot32(shift, x);
      bucket[slot] := (bucket[slot] + 1) % TWO64;
    }
  }

  /** How many of the values are below b. */
  function Below(xs: seq<nat>, b: nat): nat {
    if xs == [] then 0 else Below(xs[..|xs| - 1], b) + (if xs[|xs| - 1] < b then 1 else 0)
  }

  lemma {:induction false} BelowGrows(xs: seq<nat>, a: nat, b: nat)
    requires a <= b
    ensures Below(xs, a) <= Below(xs, b) <= |xs|
  {
    if xs != [] { BelowGrows(xs[..|xs| - 1], a, b); }
  }

  /** Every bucket holds, modulo 2^64, the number of values inside its bounds. */
  lemma {:induction false} BucketsCount(s: nat, xs: seq<nat>, k: nat)
    requires s <= 63 && Values(xs) && k < BucketCount(s)
    ensures SlotStart(s, k) <= SlotEnd(s, k)
    ensures TalliedAll(s, xs)[k] == (Below(xs, SlotEnd(s, k)) - Below(xs, SlotStart(s, k))) % TWO64
  {
    hide Pow2, SlotStart, SlotEnd, Slot, BucketCount;
    SlotsTile(s, k);
    if xs != [] {
      var init, x := xs[..|xs| - 1], xs[|xs| - 1];
      BucketsCount(s, init, k);
      SlotIffBounds(s, x, k);
      SlotInArray(s, x);
      BelowGrows(init, SlotStart(s, k), SlotEnd(s, k));
      Increment(Below(init, SlotEnd(s, k)) - Below(init, SlotStart(s, k)));
    }
  }

  lemma Increment(n: int)
    ensures (n % TWO64 + 1) % TWO64 == (n + 1) % TWO64
  {}

  // ---------------------------------------------------------------- the dump

  /** The bucket array as the bytes the script receives. */
  function Dump(b: seq<nat>): (h: seq<u8>)
    ensures |h| == 8 * |b|
  {
    if b == [] then [] else Dump(b[..|b| - 1]) + ToLe(b[|b| - 1], 8)
  }

  lemma {:induction false} DumpSlice(b: seq<nat>, k: nat)
    requires k < |b|
    ensures Slice(Dump(b), 8 * k, 8 * k + 8) == ToLe(b[k], 8)
  {
    hide ToLe;
    var n := |b| - 1;
    if k < n {
      DumpSlice(b[..n], k);
      assert Dump(b)[8 * k..8 * k + 8] == Dump(b[..n])[8 * k..8 * k + 8];
    }
  }

  lemma DumpCounts(b: seq<nat>, k: nat)
    requires k < |b| && b[k] < TWO64
    ensures Count(Dump(b), k) == b[k]
  {
    hide Dump, ToLe, FromLe;
    DumpSlice(b, k);
    Pow256Values();
    LeRoundTrip(b[k], 8);
  }

  // ---------------------------------------------------------------- end to end

  /** The bytes the script receives after the values xs have been tallied. */
  function Recorded(s: nat, xs: seq<nat>): seq<u8>
    requires s <= 63 && Values(xs)
  {
    Dump(TalliedAll(s, xs))
  }

  /** Every line reports, modulo 2^64, how many recorded values lie in its range. */
  lemma LineCountsValues(s: nat, xs: seq<nat>, k: nat)
    requires s <= 63 && Values(xs) && k < SlotCount(s)
    ensures var l := LineOf(Recorded(s, xs), s, k);
            l.start <= l.end && l.count == (Below(xs, l.end) - Below(xs, l.start)) % TWO64
  {
    hide Pow2, SlotStart, SlotEnd, TalliedAll, Count, Dump, Sum;
    VisitedFit(s);
    BucketsCount(s, xs, k);
    DumpCounts(TalliedAll(s, xs), k);
  }

  lemma VisitedFit(s: nat)
    requires s <= 63
    ensures SlotCount(s) < BucketCount(s)
  {
    assert (65 - s) * Pow2(s) == (64 - s) * Pow2(s) + Pow2(s);
  }

  /** The running total after n lines counts the values below the last line's end. */
  lemma {:induction false} RunningTotal(s: nat, xs: seq<nat>, n: nat)
    requires s <= 63 && Values(xs) && |xs| < TWO64 && n <= SlotCount(s)
    ensures Sum(Recorded(s, xs), n) == Below(xs, SlotStart(s, n))
  {
    hide Pow2, SlotStart, SlotEnd, Recorded, Count, SlotCount;
    ZeroSlot(s);
    if n == 0 {
      NoneBelowZero(xs);
    } else {
      RunningTotal(s, xs, n - 1);
      LineCountsValues(s, xs, n - 1);
      SlotsTile(s, n - 1);
      BelowGrows(xs, SlotStart(s, n - 1), SlotEnd(s, n - 1));
      SmallCount(Below(xs, SlotEnd(s, n - 1)) - Below(xs, SlotStart(s, n - 1)));
    }
  }

  lemma SmallCount(n: nat)
    requires n < TWO64
    ensures n % TWO64 == n
  {}

  lemma {:induction false} NoneBelowZero(xs: seq<nat>)
    ensures Below(xs, 0) == 0
  {
    if xs != [] { NoneBelowZero(xs[..|xs| - 1]); }
  }

  /** The script accounts for exactly the values below 2^63: it stops one range short of
      the buckets that the C code fills. */
  lemma ReportTotal(s: nat, xs: seq<nat>)
    requires s <= 63 && Values(xs) && |xs| < TWO64
    ensures Sum(Recorded(s, xs), SlotCount(s)) == Below(xs, Pow2(63))
  {
    hide Pow2, SlotStart, Recorded, SlotCount, Sum;
    RunningTotal(s, xs, SlotCount(s));
    SlotsReach(s);
  }
}
