/** Interpolated fee percentiles and the bids derived from them. Floating point is read as exact reals. */
module FeeAnalytics {
  import opened Arithmetic

  // ---- Sorting --------------------------------------------------------------------------------

  predicate Ascending(s: seq<int>) {
    forall i, j :: 0 <= i < j < |s| ==> s[i] <= s[j]
  }

  function Insert(s: seq<int>, x: int): (r: seq<int>)
    requires Ascending(s)
    ensures Ascending(r) && multiset(r) == multiset(s) + multiset{x}
  {
    if s == [] then [x]
    else if x <= s[0] then [x] + s
    else
      var rest := Insert(s[1..], x);
      assert s == [s[0]] + s[1..];
      FirstStaysLeast(s, x, rest);
      [s[0]] + rest
  }

  lemma FirstStaysLeast(s: seq<int>, x: int, rest: seq<int>)
    requires s != [] && Ascending(s) && s[0] <= x
    requires multiset(rest) == multiset(s[1..]) + multiset{x}
    ensures forall i :: 0 <= i < |rest| ==> s[0] <= rest[i]
  {
    forall i | 0 <= i < |rest| ensures s[0] <= rest[i] {
      assert rest[i] in multiset(rest);
      assert rest[i] == x || rest[i] in s[1..];
    }
  }

  function Sorted(data: seq<int>): (r: seq<int>)
    ensures Ascending(r) && multiset(r) == multiset(data) && |r| == |data|
  {
    if data == [] then []
    else
      var r := Insert(Sorted(data[1..]), data[0]);
      assert data == [data[0]] + data[1..];
      assert |multiset(r)| == |r| && |multiset(data)| == |data|;
      r
  }

  // ---- Percentiles ----------------------------------------------------------------------------

  function Ceil(x: real): int {
    -((-x).Floor)
  }

  /** Rounding half away from zero, for what is never negative here. */
  function Round(x: real): int {
    (x + 0.5).Floor
  }

  function Clamp(x: real): real {
    if x < 0.0 then 0.0 else x
  }

  /** Where a percentile falls among n sorted values. */
  function Position(n: nat, percentile: real): real
    requires n > 0
  {
    (percentile / 100.0) * ((n - 1) as real)
  }

  function Interpolated(s: seq<int>, x: real): real
    requires 0.0 <= x && Ceil(x) < |s|
  {
    var weight := x - (x.Floor as real);
    (s[x.Floor] as real) * (1.0 - weight) + (s[Ceil(x)] as real) * weight
  }

  /** The value at a position among sorted values, rounded, and raised to 0 if negative. */
  function ValueAt(sorted: seq<int>, index: real): nat
    requires 0.0 <= index && index.Floor < |sorted|
  {
    if Ceil(index) >= |sorted| then NonNegative(sorted[index.Floor])
    else Round(Clamp(Interpolated(sorted, index)))
  }

  function NonNegative(x: int): nat {
    if x < 0 then 0 else x
  }

  /** `calculate_percentile`. The source indexes out of range when the position lies beyond the last
      value; it is only called for percentiles up to 100. */
  function Percentile(data: seq<int>, percentile: real): nat
    requires data != [] ==> 0.0 <= Position(|data|, percentile) && Position(|data|, percentile).Floor < |data|
  {
    if data == [] then 0 else ValueAt(Sorted(data), Position(|data|, percentile))
  }

  lemma Product(a: real, b: real)
    requires a >= 0.0 && b >= 0.0
    ensures a * b >= 0.0
  {
  }

  /** A value between two neighbours lies between them. */
  lemma BetweenNeighbours(s: seq<int>, x: real)
    requires Ascending(s) && 0.0 <= x && Ceil(x) < |s|
    ensures s[x.Floor] as real <= Interpolated(s, x) <= s[Ceil(x)] as real
  {
    var low, high, weight := s[x.Floor] as real, s[Ceil(x)] as real, x - (x.Floor as real);
    assert s[x.Floor] <= s[Ceil(x)];
    assert Interpolated(s, x) == low + (high - low) * weight == high - (high - low) * (1.0 - weight);
    Product(high - low, weight);
    Product(high - low, 1.0 - weight);
  }

  /** Interpolation over ascending values never decreases. */
  lemma InterpolationIsMonotone(s: seq<int>, x: real, y: real)
    requires Ascending(s) && 0.0 <= x <= y && Ceil(y) < |s|
    ensures Ceil(x) < |s| && Interpolated(s, x) <= Interpolated(s, y)
  {
    assert Ceil(x) <= Ceil(y);
    BetweenNeighbours(s, x);
    BetweenNeighbours(s, y);
    if x.Floor == y.Floor && Ceil(x) == Ceil(y) {
      var low, high, base := s[x.Floor] as real, s[Ceil(x)] as real, x.Floor as real;
      assert Interpolated(s, x) == low + (high - low) * (x - base);
      assert Interpolated(s, y) == low + (high - low) * (y - base);
      assert s[x.Floor] <= s[Ceil(x)];
      Product(high - low, y - x);
      assert (high - low) * (y - x) == (high - low) * (y - base) - (high - low) * (x - base);
    } else {
      assert Ceil(x) <= y.Floor;
    }
  }

  /** Within the range 0..100 the position is within the values. */
  lemma PositionInRange(n: nat, p: real, q: real)
    requires n > 0 && 0.0 <= p <= q <= 100.0
    ensures 0.0 <= Position(n, p) <= Position(n, q) <= (n - 1) as real
    ensures Ceil(Position(n, q)) < n
  {
    var last := (n - 1) as real;
    Product(p / 100.0, last);
    Product(q / 100.0 - p / 100.0, last);
    Product(1.0 - q / 100.0, last);
    assert (q / 100.0 - p / 100.0) * last == (q / 100.0) * last - (p / 100.0) * last;
    assert (1.0 - q / 100.0) * last == last - (q / 100.0) * last;
  }

  lemma PercentileIsMonotone(data: seq<int>, p: real, q: real)
    requires 0.0 <= p <= q <= 100.0 && data != []
    ensures 0.0 <= Position(|data|, p) && Position(|data|, p).Floor < |data|
    ensures 0.0 <= Position(|data|, q) && Position(|data|, q).Floor < |data|
    ensures Percentile(data, p) <= Percentile(data, q)
  {
    PositionInRange(|data|, p, q);
    PositionInRange(|data|, p, p);
    InterpolationIsMonotone(Sorted(data), Position(|data|, p), Position(|data|, q));
  }

  lemma ValueInRange(s: seq<int>, x: real)
    requires Ascending(s) && 0.0 <= x && Ceil(x) < |s|
    ensures x.Floor < |s| && NonNegative(s[x.Floor]) <= ValueAt(s, x) <= NonNegative(s[Ceil(x)])
  {
    BetweenNeighbours(s, x);
    assert Round(NonNegative(s[x.Floor]) as real) == NonNegative(s[x.Floor]);
    assert Round(NonNegative(s[Ceil(x)]) as real) == NonNegative(s[Ceil(x)]);
  }

  lemma ValueWithinEnds(s: seq<int>, x: real)
    requires Ascending(s) && 0.0 <= x && Ceil(x) < |s|
    ensures x.Floor < |s| && NonNegative(s[0]) <= ValueAt(s, x) <= NonNegative(s[|s| - 1])
  {
    ValueInRange(s, x);
    assert s[0] <= s[x.Floor] && s[Ceil(x)] <= s[|s| - 1];
  }

  /** Every percentile lies between the least and the greatest value, raised to 0 if negative; without
      values it is 0. */
  lemma {:induction false} PercentileIsInRange(data: seq<int>, p: real)
    requires 0.0 <= p <= 100.0
    ensures data != [] ==> 0.0 <= Position(|data|, p) && Position(|data|, p).Floor < |data|
    ensures if data == [] then Percentile(data, p) == 0
      else NonNegative(Sorted(data)[0]) <= Percentile(data, p) <= NonNegative(Sorted(data)[|data| - 1])
  {
    if data != [] {
      PositionInRange(|data|, p, p);
      ValueWithinEnds(Sorted(data), Position(|data|, p));
    }
  }

  /** Between the values a percentile is the integer nearest to the interpolated value. */
  lemma PercentileIsNearest(data: seq<int>, p: real)
    requires 0.0 <= p <= 100.0 && data != []
    ensures 0.0 <= Position(|data|, p) && Ceil(Position(|data|, p)) < |data|
    ensures var exact := Clamp(Interpolated(Sorted(data), Position(|data|, p)));
      exact - 0.5 < Percentile(data, p) as real <= exact + 0.5
  {
    PositionInRange(|data|, p, p);
  }

  lemma ValueAtIndex(s: seq<int>, k: nat)
    requires Ascending(s) && k < |s|
    ensures (k as real).Floor == k && ValueAt(s, k as real) == NonNegative(s[k])
  {
    ValueInRange(s, k as real);
  }

  lemma PositionAtRank(n: nat, k: nat, p: real)
    requires n > 0 && p * ((n - 1) as real) == 100.0 * (k as real)
    ensures Position(n, p) == k as real
  {
  }

  /** The percentile that falls on rank k of the sorted samples is that sample, raised to 0 if negative:
      rank 0 is the 0th percentile, the last rank the 100th. */
  lemma PercentileAtRank(data: seq<int>, k: nat, p: real)
    requires k < |data| && p * ((|data| - 1) as real) == 100.0 * (k as real)
    ensures Position(|data|, p) == k as real && (k as real).Floor == k
    ensures Percentile(data, p) == NonNegative(Sorted(data)[k])
  {
    PositionAtRank(|data|, k, p);
    var s := Sorted(data);
    ValueAtIndex(s, k);
    assert Percentile(data, p) == ValueAt(s, k as real);
  }

  lemma FloorBetweenRanks(k: nat, part: real, x: real)
    requires 0.0 <= part < 1.0 && x == k as real + part
    ensures x.Floor == k && Ceil(x) == if part == 0.0 then k else k + 1
  {
  }

  lemma PositionBetweenRanks(n: nat, k: nat, part: real, p: real)
    requires n > 0 && 0.0 <= part < 1.0 && p * ((n - 1) as real) == 100.0 * (k as real + part)
    ensures Position(n, p) == k as real + part && (k as real + part).Floor == k
    ensures Ceil(k as real + part) == if part == 0.0 then k else k + 1
  {
    FloorBetweenRanks(k, part, k as real + part);
  }

  /** `high` is the upper neighbour, which is `low` itself on a rank, and `next` the sample after `low`. */
  lemma PointOfTheLine(low: real, high: real, next: real, weight: real, part: real)
    requires weight == part && high == if part == 0.0 then low else next
    ensures low * (1.0 - weight) + high * weight == low + (next - low) * part
  {
    if part == 0.0 {
      assert low * (1.0 - weight) == low && high * weight == 0.0 && (next - low) * part == 0.0;
    } else {
      assert (high - low) * part == high * part - low * part;
      assert low * (1.0 - part) == low - low * part;
    }
  }

  lemma InterpolatedBetween(s: seq<int>, k: nat, part: real, point: real)
    requires k + 1 < |s| && 0.0 <= part < 1.0
    requires point == s[k] as real + (s[k + 1] as real - s[k] as real) * part
    ensures Ceil(k as real + part) < |s| && Interpolated(s, k as real + part) == point
  {
    var x := k as real + part;
    FloorBetweenRanks(k, part, x);
    var low, high, next, weight := s[x.Floor] as real, s[Ceil(x)] as real, s[k + 1] as real, x - (x.Floor as real);
    PointOfTheLine(low, high, next, weight, part);
    assert Interpolated(s, x) == low * (1.0 - weight) + high * weight;
  }

  /** `value` is the integer nearest to `exact`, halves up, or 0 when that is negative. */
  predicate Nearest(exact: real, value: nat) {
    if exact < 0.0 then value == 0 else exact - 0.5 < value as real <= exact + 0.5
  }

  /** Between two ranks the value runs along the straight line from one sample to the next: `part` of the
      way from rank k to rank k + 1 it is the integer nearest to that point of the line. */
  lemma ValueBetweenRanks(s: seq<int>, k: nat, part: real, point: real)
    requires k + 1 < |s| && 0.0 <= part < 1.0
    requires point == s[k] as real + (s[k + 1] as real - s[k] as real) * part
    ensures (k as real + part).Floor < |s| && Nearest(point, ValueAt(s, k as real + part))
  {
    InterpolatedBetween(s, k, part, point);
    RoundIsNearest(point);
  }

  /** The percentile that falls there (see PositionBetweenRanks) is that value. */
  lemma PercentileIsValueAt(data: seq<int>, s: seq<int>, p: real, x: real)
    requires data != [] && s == Sorted(data) && Position(|data|, p) == x && 0.0 <= x && x.Floor < |data|
    ensures Percentile(data, p) == ValueAt(s, x)
  {
  }

  lemma RoundIsNearest(x: real)
    ensures Round(Clamp(x)) >= 0 && Nearest(x, Round(Clamp(x)))
  {
  }

  // ---- Only the values matter, not their order --------------------------------------------------

  lemma LeastIsFirst(s: seq<int>, t: seq<int>)
    requires Ascending(s) && s != [] && multiset(s) == multiset(t)
    ensures t != [] && s[0] <= t[0]
  {
    assert |multiset(s)| == |s| && |multiset(t)| == |t|;
    assert t[0] in multiset(t);
  }

  lemma RestOf(s: seq<int>)
    requires s != []
    ensures multiset(s[1..]) == multiset(s) - multiset{s[0]}
  {
    assert s == [s[0]] + s[1..];
  }

  lemma {:induction false} AscendingIsUnique(s: seq<int>, t: seq<int>)
    requires Ascending(s) && Ascending(t) && multiset(s) == multiset(t)
    ensures s == t
    decreases |s|
  {
    if s != [] {
      LeastIsFirst(s, t);
      LeastIsFirst(t, s);
      RestOf(s);
      RestOf(t);
      AscendingIsUnique(s[1..], t[1..]);
      assert s == [s[0]] + s[1..] && t == [t[0]] + t[1..];
    } else {
      assert |multiset(t)| == |t|;
    }
  }

  lemma OrderDoesNotMatter(data: seq<int>, other: seq<int>, p: real)
    requires multiset(data) == multiset(other) && 0.0 <= p <= 100.0 && data != []
    ensures |data| == |other| && 0.0 <= Position(|data|, p) && Position(|data|, p).Floor < |data|
    ensures Percentile(data, p) == Percentile(other, p)
  {
    assert |multiset(data)| == |data| && |multiset(other)| == |other|;
    AscendingIsUnique(Sorted(data), Sorted(other));
    PositionInRange(|data|, p, p);
  }

  // ---- Bids -------------------------------------------------------------------------------------

  datatype Bids = Bids(
    nextLedger: nat, next3Ledgers: nat, economy: nat, standard: nat, priority: nat, urgent: nat)

  /** The least whole number that reaches the target, cut off at the ends of the u64 range. */
  ghost predicate Reaches(bid: nat, target: real) {
    && (0.0 <= target <= U64_MAX as real ==> target <= bid as real < target + 1.0)
    && (target < 0.0 ==> bid == 0)
    && (target > U64_MAX as real ==> bid == 0xffff_ffff_ffff_ffff)
  }

  /** Rounding up and the saturating cast to u64. */
  function RoundUp(target: real): nat {
    var bid := Ceil(target);
    if bid < 0 then 0 else if bid > U64_MAX then U64_MAX else bid
  }

  lemma RoundUpReaches(target: real)
    ensures Reaches(RoundUp(target), target)
  {
  }

  function BidOf(fee: nat, factor: real): nat {
    RoundUp((fee as real) * factor)
  }

  /** The bids of `predict`. */
  function Predict(fees: seq<int>, safetyMargin: real): Bids {
    if fees == [] then Bids(100, 100, 100, 100, 150, 200)
    else
      PositionInRange(|fees|, 50.0, 50.0);
      PositionInRange(|fees|, 75.0, 75.0);
      PositionInRange(|fees|, 95.0, 95.0);
      var p50, p75, p95 := Percentile(fees, 50.0), Percentile(fees, 75.0), Percentile(fees, 95.0);
      var standard, urgent := BidOf(p50, safetyMargin), BidOf(p95, safetyMargin);
      Bids(urgent, standard, BidOf(p50, 0.9), standard, BidOf(p75, safetyMargin), urgent)
  }

  /** A bid is its percentile times its factor, rounded up, and cut off where the product leaves the u64 range. */
  ghost predicate RoundsUp(bid: nat, data: seq<int>, percentile: real, factor: real)
    requires data != [] && 0.0 <= Position(|data|, percentile) && Position(|data|, percentile).Floor < |data|
  {
    Reaches(bid, (Percentile(data, percentile) as real) * factor)
  }

  lemma BidRoundsUp(data: seq<int>, percentile: real, factor: real)
    requires data != [] && 0.0 <= Position(|data|, percentile) && Position(|data|, percentile).Floor < |data|
    ensures RoundsUp(BidOf(Percentile(data, percentile), factor), data, percentile, factor)
  {
    RoundUpReaches((Percentile(data, percentile) as real) * factor);
  }

  lemma BidsRoundUp(fees: seq<int>, safetyMargin: real)
    requires fees != []
    ensures forall p {:trigger Position(|fees|, p)} :: 0.0 <= p <= 100.0 ==>
      0.0 <= Position(|fees|, p) && Position(|fees|, p).Floor < |fees|
    ensures var b := Predict(fees, safetyMargin);
      && RoundsUp(b.economy, fees, 50.0, 0.9) && RoundsUp(b.standard, fees, 50.0, safetyMargin)
      && RoundsUp(b.priority, fees, 75.0, safetyMargin) && RoundsUp(b.urgent, fees, 95.0, safetyMargin)
      && b.nextLedger == b.urgent && b.next3Ledgers == b.standard
  {
    PositionInRange(|fees|, 50.0, 50.0);
    PositionInRange(|fees|, 75.0, 75.0);
    PositionInRange(|fees|, 95.0, 95.0);
    BidRoundsUp(fees, 50.0, 0.9);
    BidRoundsUp(fees, 50.0, safetyMargin);
    BidRoundsUp(fees, 75.0, safetyMargin);
    BidRoundsUp(fees, 95.0, safetyMargin);
    forall p {:trigger Position(|fees|, p)} | 0.0 <= p <= 100.0
      ensures 0.0 <= Position(|fees|, p) && Position(|fees|, p).Floor < |fees|
    {
      PositionInRange(|fees|, p, p);
    }
  }

  lemma RoundUpIsMonotone(target: real, target': real)
    requires target <= target'
    ensures RoundUp(target) <= RoundUp(target')
  {
  }

  lemma ProductOrder(a: real, b: real, factor: real, factor': real)
    requires 0.0 <= a <= b && factor <= factor' && (0.0 <= factor' || a == b)
    ensures a * factor <= b * factor'
  {
    Product(a, factor' - factor);
    assert a * factor <= a * factor';
    if a < b {
      Product(b - a, factor');
    }
  }

  lemma BidIsMonotone(fee: nat, fee': nat, factor: real, factor': real)
    requires fee <= fee' && factor <= factor' && (0.0 <= factor || fee == fee')
    ensures BidOf(fee, factor) <= BidOf(fee', factor')
  {
    var x, y := (fee as real) * factor, (fee' as real) * factor';
    assert x <= y by {
      ProductOrder(fee as real, fee' as real, factor, factor');
    }
    RoundUpIsMonotone(x, y);
  }

  /** The ladder: for every list of fees and any safety margin of at least 0.9. The upper three rungs
      are in order for every margin. Without fees the bids are constants. */
  lemma BidLadder(fees: seq<int>, safetyMargin: real)
    ensures fees == [] ==> Predict(fees, safetyMargin) == Bids(100, 100, 100, 100, 150, 200)
    ensures var b := Predict(fees, safetyMargin); b.standard <= b.priority <= b.urgent
    ensures var b := Predict(fees, safetyMargin); safetyMargin >= 0.9 ==> b.economy <= b.standard
  {
    if fees != [] {
      PercentileIsMonotone(fees, 50.0, 75.0);
      PercentileIsMonotone(fees, 75.0, 95.0);
      var p50, p75, p95 := Percentile(fees, 50.0), Percentile(fees, 75.0), Percentile(fees, 95.0);
      if safetyMargin >= 0.0 {
        BidIsMonotone(p50, p75, safetyMargin, safetyMargin);
        BidIsMonotone(p75, p95, safetyMargin, safetyMargin);
      } else {
        NegativeFactor(p50, safetyMargin);
        NegativeFactor(p75, safetyMargin);
        NegativeFactor(p95, safetyMargin);
      }
      if safetyMargin >= 0.9 {
        BidIsMonotone(p50, p50, 0.9, safetyMargin);
      }
    }
  }

  lemma NegativeFactor(fee: nat, factor: real)
    requires factor < 0.0
    ensures BidOf(fee, factor) == 0
  {
    Product(fee as real, -factor);
    assert (fee as real) * factor == -((fee as real) * (-factor));
  }
}
