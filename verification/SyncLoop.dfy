/** The correction applied in every round of synchronization (core/sync/sync.go). */
module SyncLoop {
  import opened Collection
  import opened Float64
  import opened GoInt
  import opened Measurements

  /* ---- Clamping ---- */

  // Conversion of a float64 to an int64.
  function Trunc(x: real): (r: int)
    ensures x >= 0.0 ==> 0 <= r && r as real <= x < r as real + 1.0
    ensures x <= 0.0 ==> r <= 0 && r as real - 1.0 < x <= r as real
  {
    if x >= 0.0 then x.Floor else -(-x).Floor
  }

  // timemath.Sgn
  function Sgn(d: Duration): (r: int)
    ensures r * Abs(d) == d
  {
    if d < 0 then -1 else if d > 0 then 1 else 0
  }

  // Duration.Abs
  function AbsDuration(d: Duration): Duration {
    assert IsInt64(d);
    if d == MIN_INT64 then MAX_INT64 else Abs(d)
  }

  // The size of an offset as a float64.
  function Size(d: Duration): real {
    Round(AbsDuration(d) as real)
  }

  function Clamp(d: Duration, max: Float): Duration
  {
    if Size(d) > max then AtBound(d, max) else d
  }

  // The bound, with the sign of the offset.
  function AtBound(d: Duration, max: Float): Duration
    requires Size(d) > max
  {
    BoundFits(d, max);
    Trunc(Sgn(d) as real * max)
  }

  // A size above a bound is not a matter of rounding.
  lemma SizeAbove(d: Duration, max: Float)
    ensures Size(d) > max ==> Abs(d) as real > max && AbsDuration(d) as real > max
  {
    hide Round, IsFloat64, AbsDuration;
    FloatsAreLarge(max);
    AbsIsNotLess(d);
    if AbsDuration(d) as real <= max {
      RoundIsMonotone(AbsDuration(d) as real, max);
    }
  }

  lemma AbsIsNotLess(d: Duration)
    ensures 0 <= AbsDuration(d) <= Abs(d)
  {
  }

  lemma BoundFits(d: Duration, max: Float)
    ensures var r := Trunc(Sgn(d) as real * max);
      Size(d) > max ==>
        && IsInt64(r) && Abs(r) as real <= max < Abs(d) as real && r * d >= 0
        && max < Abs(r) as real + 1.0 && (d > 0 ==> r >= 0) && (d < 0 ==> r <= 0) && d != 0
  {
    hide Size, IsFloat64, AbsDuration;
    SizeAbove(d, max);
    FloatsAreLarge(max);
    assert IsInt64(d);
    var m: real := max;
    assert Sgn(d) as real * m == if d > 0 then m else if d < 0 then -m else 0.0;
  }

  // An offset above a bound that is rounded down to it.
  predicate Overshoots(d: Duration, max: Float) {
    Size(d) <= max < Abs(d) as real
  }

  // An offset whose size is above the bound is set to the bound, rounded toward zero to whole
  // nanoseconds, with its sign; any other one is left.
  lemma ClampIs(d: Duration, max: Float)
    ensures Size(d) <= max ==> Clamp(d, max) == d
    ensures Size(d) > max ==>
              && Abs(Clamp(d, max)) as real <= max < Abs(Clamp(d, max)) as real + 1.0
              && (Clamp(d, max) > 0 <==> d > 0) && (Clamp(d, max) < 0 <==> d < 0)
  {
    hide Size, IsFloat64;
    if Size(d) > max {
      FloatsAreLarge(max);
      BoundFits(d, max);
    }
  }

  // Up to 2^53 the size is the absolute value; beyond, it is as near as a float64 can be.
  lemma SizeIs(d: Duration)
    ensures Abs(d) as real <= TWO_53 ==> Size(d) == Abs(d) as real
    ensures Distance(Size(d), AbsDuration(d) as real) * TWO_53 <= AbsDuration(d) as real
    ensures AbsDuration(d) == if d == MIN_INT64 then MAX_INT64 else Abs(d)
  {
    hide Round;
    AbsIsNotLess(d);
    if Abs(d) as real <= TWO_53 {
      IntegersAreFloats(Abs(d));
    }
    RoundError(AbsDuration(d) as real);
  }

  // A clamped offset keeps its sign, is no larger, and within the bound unless it overshoots.
  lemma ClampBounds(d: Duration, max: Float)
    ensures Abs(Clamp(d, max)) <= Abs(d) && Clamp(d, max) * d >= 0
    ensures Abs(Clamp(d, max)) as real <= max <==> !Overshoots(d, max)
    ensures Overshoots(d, max) ==> Clamp(d, max) == d
  {
    hide Size, IsFloat64, Trunc, Sgn;
    if Size(d) > max {
      BoundFits(d, max);
    }
  }

  // The largest offset is rounded up, so the least one does not overshoot any bound.
  lemma LeastIsClamped(max: Float)
    ensures !Overshoots(MIN_INT64, max)
  {
    MaxIsRoundedUp(MAX_INT64 as real, 10);
    hide Round;
  }

  lemma {:induction false} MaxIsRoundedUp(x: real, k: nat)
    requires Scaled(TWO_53, k) - 1.0 <= x < Scaled(TWO_53, k) && k > 0
    ensures Round(x) == Scaled(TWO_53, k)
  {
    if k > 1 {
      MaxIsRoundedUp(x / 2.0, k - 1);
    }
  }

  // What every clamped offset is within.
  function Limit(max: real): real {
    if max < TWO_53 then max else max + 512.0
  }

  lemma OvershootIsSmall(d: Duration, max: Float)
    requires Overshoots(d, max)
    ensures TWO_53 <= max && Abs(d) as real <= max + 512.0
  {
    hide Round, IsFloat64;
    LeastIsClamped(max);
    FloatsAreLarge(max);
    assert IsInt64(d);
    assert Scaled(1.0, 10) == 1024.0;
    ErrorBelow(AbsDuration(d) as real, 10);
  }

  lemma ClampWithinLimit(d: Duration, max: Float)
    ensures Abs(Clamp(d, max)) as real <= Limit(max)
  {
    ClampBounds(d, max);
    if Overshoots(d, max) {
      OvershootIsSmall(d, max);
    }
    hide Clamp, Overshoots, IsFloat64;
  }

  /* ---- One round ---- */

  datatype Config = Config(referenceImpact: real, peerImpact: real, cutoff: Duration,
                           timeout: Duration, interval: Duration, drift: Duration)

  // The checks of Run. drift is the drift of the clock in one interval; its products with
  // the factors are positive exactly if it is. The difference is exact if it is below 1.
  predicate IsValidConfig(c: Config) {
    && IsFloat64(c.referenceImpact) && IsFloat64(c.peerImpact)
    && c.referenceImpact > 1.0 && c.peerImpact > 1.0
    && c.peerImpact - 1.0 >= 1.0 && Round(c.peerImpact - 1.0) > c.referenceImpact
    && c.interval > 0 && 0 <= c.timeout <= Quo(c.interval, 2)
    && c.drift > 0
  }

  // A factor times the drift.
  function Bound(impact: real, drift: Duration): Float
    requires impact >= 1.0 && drift > 0
  {
    var product := Product(impact, Round(drift as real));
    RoundedIsFloat(product);
    Round(product)
  }

  function Product(x: real, y: real): (r: real)
    requires x >= 1.0 && y >= 1.0
    ensures r >= y
  {
    assert (x - 1.0) * y >= 0.0;
    x * y
  }

  function ReferenceBound(c: Config): Float
    requires IsValidConfig(c)
  {
    Bound(c.referenceImpact, c.drift)
  }

  function PeerBound(c: Config): Float
    requires IsValidConfig(c)
  {
    Bound(c.peerImpact, c.drift)
  }

  lemma ImpactsDiffer(c: Config)
    requires IsValidConfig(c)
    ensures c.peerImpact - 1.0 > c.referenceImpact
  {
    if c.peerImpact - 1.0 <= c.referenceImpact {
      RoundIsMonotone(c.peerImpact - 1.0, c.referenceImpact);
    }
    hide Round;
  }

  // It is strictly larger unless the factors are too large to tell apart.
  lemma PeerBoundIsLarger(c: Config)
    requires IsValidConfig(c)
    ensures ReferenceBound(c) <= PeerBound(c)
    ensures 2.0 * c.referenceImpact <= TWO_52 ==> ReferenceBound(c) < PeerBound(c)
  {
    ImpactsDiffer(c);
    BoundsDiffer(c.referenceImpact, c.peerImpact, c.drift);
  }

  lemma BoundsDiffer(ref: real, peer: real, drift: Duration)
    requires ref >= 1.0 && peer - 1.0 > ref && drift > 0
    ensures Bound(ref, drift) <= Bound(peer, drift)
    ensures 2.0 * ref <= TWO_52 ==> Bound(ref, drift) < Bound(peer, drift)
  {
    hide Round, Product;
    var d := Round(drift as real);
    ProductsApart(ref, peer, d);
    RoundsApart(Product(ref, d), Product(peer, d), d);
  }

  lemma RoundsApart(a: real, b: real, d: real)
    requires 1.0 <= d <= a && a + d < b
    ensures Round(a) <= Round(b)
    ensures 2.0 * a <= TWO_52 * d ==> Round(a) < Round(b)
  {
    RoundIsMonotone(a, b);
    RoundError(a);
    RoundError(b);
    hide Round;
  }

  lemma ProductsApart(ref: real, peer: real, d: real)
    requires ref >= 1.0 && peer - 1.0 > ref && d >= 1.0
    ensures Product(ref, d) + d < Product(peer, d)
    ensures 2.0 * ref <= TWO_52 ==> 2.0 * Product(ref, d) <= TWO_52 * d
  {
    assert (peer - 1.0 - ref) * d == peer * d - d - ref * d;
    assert (TWO_52 - 2.0 * ref) * d == TWO_52 * d - 2.0 * (ref * d);
    Positive(peer - 1.0 - ref, d);
    if 2.0 * ref <= TWO_52 {
      Positive(TWO_52 - 2.0 * ref, d);
    }
  }

  lemma Positive(x: real, d: real)
    requires x >= 0.0 && d >= 1.0
    ensures x * d >= x
  {
  }

  // The peers are heard only if they are further off than the cutoff.
  predicate PeerApplies(c: Config, peers: nat, peerOff: Duration) {
    peers != 0 && AbsDuration(peerOff) > c.cutoff
  }

  ghost function Correction(c: Config, refs: nat, peers: nat, refOff: Duration, peerOff: Duration): Duration
    requires IsValidConfig(c)
  {
    var x, y := Clamp(refOff, ReferenceBound(c)), Clamp(peerOff, PeerBound(c));
    if PeerApplies(c, peers, peerOff) then (if refs != 0 then MidOffset(x, y) else y)
    else if refs != 0 then x else 0
  }

  method CorrectionOf(c: Config, refs: nat, peers: nat, refOff: Duration, peerOff: Duration) returns (corr: Duration)
    requires IsValidConfig(c)
    ensures corr == Correction(c, refs, peers, refOff, peerOff)
  {
    hide Size, AtBound, ReferenceBound, PeerBound, MidOffset;
    var refMax, peerMax := ReferenceBound(c), PeerBound(c);
    var refCorr, peerCorr := refOff, peerOff;
    if Size(refCorr) > refMax {
      refCorr := AtBound(refOff, refMax);
    }
    var refOk, peerOk := refs != 0, false;
    if AbsDuration(peerCorr) > c.cutoff {
      if Size(peerCorr) > peerMax {
        peerCorr := AtBound(peerOff, peerMax);
      }
      peerOk := peers != 0;
    }
    corr := 0;
    if refOk && !peerOk {
      corr := refCorr;
    } else if !refOk && peerOk {
      corr := peerCorr;
    } else if refOk && peerOk {
      corr := MidOffset(refCorr, peerCorr);
    }
  }

  // The correction is the clamped reference offset while no peer is heard, the clamped peer
  // offset without reference clocks, otherwise half of their sum, rounded toward the first,
  // if their distance does not overflow. Peers are heard if their offset is above the cutoff;
  // the least int64 counts as the largest one there.
  lemma CorrectionIs(c: Config, refs: nat, peers: nat, refOff: Duration, peerOff: Duration)
    requires IsValidConfig(c)
    ensures var x, y := Clamp(refOff, ReferenceBound(c)), Clamp(peerOff, PeerBound(c));
      var corr := Correction(c, refs, peers, refOff, peerOff);
      var heard := peers != 0 && (if peerOff == MIN_INT64 then MAX_INT64 else Abs(peerOff)) > c.cutoff;
      && (!heard ==> corr == if refs != 0 then x else 0)
      && (heard && refs == 0 ==> corr == y)
      && (heard && refs != 0 && IsInt64(y - x) ==>
            && x + y - 1 <= 2 * corr <= x + y + 1
            && (x <= y ==> 2 * corr <= x + y) && (y <= x ==> x + y <= 2 * corr))
  {
    hide Clamp, ReferenceBound, PeerBound, MidOffset;
    MidOffsetIsBetween(Clamp(refOff, ReferenceBound(c)), Clamp(peerOff, PeerBound(c)));
  }

  // The bound is the product of factor and drift, up to the rounding of either.
  lemma BoundIsProduct(impact: real, drift: Duration)
    requires impact >= 1.0 && drift > 0
    ensures drift as real <= TWO_53 ==>
              Distance(Bound(impact, drift), impact * drift as real) * TWO_53 <= impact * drift as real
  {
    hide Round, Distance, Bound;
    assert Product(impact, drift as real) == impact * drift as real;
    if drift as real <= TWO_53 {
      BoundError(impact, drift);
    }
  }

  lemma BoundError(impact: real, drift: Duration)
    requires impact >= 1.0 && 0.0 < drift as real <= TWO_53
    ensures var p := Product(impact, drift as real);
      Distance(Bound(impact, drift), p) * TWO_53 <= p
  {
    hide Round, Product, Distance;
    IntegersAreFloats(drift);
    RoundError(Product(impact, drift as real));
  }

  // The sum of the two, rounded to an even number toward y.
  function EvenSum(x: int, y: int): int {
    if (x + y) % 2 == 0 then x + y else if x < y then x + y + 1 else x + y - 1
  }

  // The midpoint lies between the two, in either order, exactly if their distance does not
  // overflow, or is as large as any.
  lemma MidOffsetIsBetween(x: Duration, y: Duration)
    ensures (x <= MidOffset(x, y) <= y || y <= MidOffset(x, y) <= x)
       <==> IsInt64(y - x) || Abs(y - x) == MAX_INT64 - MIN_INT64
    ensures IsInt64(y - x) ==> 2 * MidOffset(x, y) == EvenSum(y, x)
  {
    MidOffsetBetween(if x <= y then x else y, if x <= y then y else x);
    assert IsInt64(x) && IsInt64(y);
  }

  const TWO_TO_THE_64: int := 0x1_0000_0000_0000_0000

  // If the distance overflows, the midpoint is on the far side of the range.
  lemma MidOffsetOverflows(x: Duration, y: Duration)
    requires !IsInt64(y - x)
    ensures 2 * Abs(MidOffset(x, y)) == TWO_TO_THE_64 - Abs(EvenSum(x, y))
  {
    assert IsInt64(x) && IsInt64(y);
    if x < y {
      var q := (TWO_TO_THE_64 - (y - x)) / 2;
      assert Quo(Wrap64(y - x), 2) == -q;
      assert 2 * (x - q) == EvenSum(x, y) - TWO_TO_THE_64;
      assert MidOffset(x, y) == Wrap64(x - q);
    } else {
      var q := (TWO_TO_THE_64 + (y - x)) / 2;
      assert Quo(Wrap64(y - x), 2) == q;
      assert 2 * (x + q) == EvenSum(x, y) + TWO_TO_THE_64;
      assert MidOffset(x, y) == Wrap64(x + q);
    }
  }

  // The correction is the clamped reference offset or the clamped peer offset, 0 if neither
  // applies, and between them if both apply, exactly if their distance does not overflow.
  lemma CorrectionIsBetween(c: Config, refs: nat, peers: nat, refOff: Duration, peerOff: Duration)
    requires IsValidConfig(c)
    ensures var x, y := Clamp(refOff, ReferenceBound(c)), Clamp(peerOff, PeerBound(c));
      var corr := Correction(c, refs, peers, refOff, peerOff);
      if PeerApplies(c, peers, peerOff) && refs != 0 then
        (x <= corr <= y || y <= corr <= x <==> IsInt64(y - x) || Abs(y - x) == MAX_INT64 - MIN_INT64)
      else corr == if PeerApplies(c, peers, peerOff) then y else if refs != 0 then x else 0
  {
    MidOffsetIsBetween(Clamp(refOff, ReferenceBound(c)), Clamp(peerOff, PeerBound(c)));
  }

  // Distances do not overflow if the bounds are small enough.
  lemma SmallBoundsFit(c: Config, refOff: Duration, peerOff: Duration)
    requires IsValidConfig(c)
    ensures Limit(ReferenceBound(c)) + Limit(PeerBound(c)) <= MAX_INT64 as real ==>
              IsInt64(Clamp(peerOff, PeerBound(c)) - Clamp(refOff, ReferenceBound(c)))
  {
    ClampWithinLimit(refOff, ReferenceBound(c));
    ClampWithinLimit(peerOff, PeerBound(c));
    hide Limit, ReferenceBound, PeerBound, Clamp;
  }

  // 2 * |midpoint| is within the sum of both bounds, unless one is overshot; if there is an
  // overflow it depends on how far the two are from being opposite.
  ghost predicate MidOffsetFits(x: int, y: int, over: bool, bound: real) {
    if IsInt64(y - x) then over ==> Abs(EvenSum(y, x)) as real <= bound
    else (TWO_TO_THE_64 - Abs(EvenSum(x, y))) as real <= bound
  }

  // How large the midpoint of clamped offsets is, for bounds p and q.
  lemma MidOffsetWithin(x: Duration, y: Duration, over: bool, p: real, q: real)
    requires 0.0 < p <= q && (!over ==> Abs(x) as real <= p && Abs(y) as real <= q)
    ensures Abs(MidOffset(x, y)) as real <= q <==> MidOffsetFits(x, y, over, 2.0 * q)
    ensures 2.0 * Abs(MidOffset(x, y)) as real <= p + q + 1.0 <==> MidOffsetFits(x, y, over, p + q + 1.0)
  {
    var m := MidOffset(x, y);
    MidOffsetIsBetween(x, y);
    if IsInt64((y as int) - x) {
      assert Abs(EvenSum(y, x)) <= Abs(x) + Abs(y) + 1;
      hide MidOffset, EvenSum;
    } else {
      MidOffsetOverflows(x, y);
      hide MidOffset, EvenSum;
    }
  }

  ghost predicate Over(c: Config, refOff: Duration, peerOff: Duration)
    requires IsValidConfig(c)
  {
    Overshoots(refOff, ReferenceBound(c)) || Overshoots(peerOff, PeerBound(c))
  }

  // Exactly when the correction is within the peer bound, for any offsets.
  lemma CorrectionWithinPeerBound(c: Config, refs: nat, peers: nat, refOff: Duration, peerOff: Duration)
    requires IsValidConfig(c)
    ensures var x, y := Clamp(refOff, ReferenceBound(c)), Clamp(peerOff, PeerBound(c));
      Abs(Correction(c, refs, peers, refOff, peerOff)) as real <= PeerBound(c) <==>
        if !PeerApplies(c, peers, peerOff)
        then refs == 0 || !Overshoots(refOff, ReferenceBound(c)) || !Overshoots(refOff, PeerBound(c))
        else if refs == 0 then !Overshoots(peerOff, PeerBound(c))
        else MidOffsetFits(x, y, Over(c, refOff, peerOff), 2.0 * PeerBound(c))
  {
    var p, q := ReferenceBound(c), PeerBound(c);
    ClampBounds(refOff, p);
    ClampBounds(peerOff, q);
    PeerBoundIsLarger(c);
    MidOffsetWithin(Clamp(refOff, p), Clamp(peerOff, q), Over(c, refOff, peerOff), p, q);
    hide Clamp, MidOffset, ReferenceBound, PeerBound, PeerApplies, MidOffsetFits, Size;
  }

  // Exactly when it is within the reference bound while no peer applies.
  lemma CorrectionWithinReferenceBound(c: Config, refs: nat, peers: nat, refOff: Duration, peerOff: Duration)
    requires IsValidConfig(c) && !PeerApplies(c, peers, peerOff)
    ensures var corr := Correction(c, refs, peers, refOff, peerOff);
      && (Abs(corr) as real <= ReferenceBound(c) <==> refs == 0 || !Overshoots(refOff, ReferenceBound(c)))
      && (refs == 0 ==> corr == 0)
  {
    ClampBounds(refOff, ReferenceBound(c));
    hide Clamp, MidOffset, ReferenceBound, PeerBound, PeerApplies, Overshoots;
  }

  // Exactly when it is within the mean of both bounds, up to rounding, while both apply.
  lemma CorrectionWithinMeanBound(c: Config, refs: nat, peers: nat, refOff: Duration, peerOff: Duration)
    requires IsValidConfig(c)
    ensures refs != 0 && PeerApplies(c, peers, peerOff) ==>
      var x, y := Clamp(refOff, ReferenceBound(c)), Clamp(peerOff, PeerBound(c));
      var bounds := ReferenceBound(c) + PeerBound(c) + 1.0;
      2.0 * Abs(Correction(c, refs, peers, refOff, peerOff)) as real <= bounds <==>
        MidOffsetFits(x, y, Over(c, refOff, peerOff), bounds)
  {
    var p, q := ReferenceBound(c), PeerBound(c);
    ClampBounds(refOff, p);
    ClampBounds(peerOff, q);
    PeerBoundIsLarger(c);
    MidOffsetWithin(Clamp(refOff, p), Clamp(peerOff, q), Over(c, refOff, peerOff), p, q);
    hide Clamp, MidOffset, ReferenceBound, PeerBound, PeerApplies, MidOffsetFits, Overshoots;
  }

  // All three hold for any offsets, with the limits in place of the bounds, if the limits
  // together fit an int64, and with a reference bound as large as any offset. Bounds below
  // 2^53 are the limits.
  lemma CorrectionIsBounded(c: Config, refs: nat, peers: nat, refOff: Duration, peerOff: Duration)
    requires IsValidConfig(c)
    ensures var corr, peer := Correction(c, refs, peers, refOff, peerOff), PeerApplies(c, peers, peerOff);
      || Limit(ReferenceBound(c)) + Limit(PeerBound(c)) <= MAX_INT64 as real
      || ReferenceBound(c) >= Abs(MIN_INT64) as real
      ==>
        && Abs(corr) as real <= Limit(PeerBound(c))
        && (!peer ==> Abs(corr) as real <= Limit(ReferenceBound(c)))
        && (peer && refs != 0 ==>
              2.0 * Abs(corr) as real <= Limit(ReferenceBound(c)) + Limit(PeerBound(c)) + 1.0)
  {
    hide IsValidConfig, PeerApplies, Clamp, ReferenceBound, PeerBound, Overshoots, MidOffset, MidOffsetFits, Limit;
    var p, q := ReferenceBound(c), PeerBound(c);
    var x, y := Clamp(refOff, p), Clamp(peerOff, q);
    PeerBoundIsLarger(c);
    ClampWithinLimit(refOff, p);
    ClampWithinLimit(peerOff, q);
    FloatsAreLarge(p);
    LimitIsMonotone(p, q);
    SmallBoundsFit(c, refOff, peerOff);
    if Limit(p) + Limit(q) <= MAX_INT64 as real {
      SmallMidOffset(x, y, Limit(p), Limit(q));
    } else {
      assert IsInt64(Correction(c, refs, peers, refOff, peerOff));
    }
  }

  lemma SmallMidOffset(x: Duration, y: Duration, p: real, q: real)
    requires IsInt64(y - x) && Abs(x) as real <= p <= q && Abs(y) as real <= q
    ensures Abs(MidOffset(x, y)) as real <= q && 2.0 * Abs(MidOffset(x, y)) as real <= p + q + 1.0
  {
    hide MidOffset;
    MidOffsetIsBetween(x, y);
  }

  lemma LimitIsMonotone(p: real, q: real)
    requires 0.0 < p <= q
    ensures 0.0 < p <= Limit(p) <= Limit(q) && q <= Limit(q)
  {
  }

  // A configuration with bounds above 2^53, and an offset that overshoots: the correction is
  // above the reference bound.
  lemma CorrectionOvershoots()
    ensures var c := Config(2.0, 4.0, 0, 0, 1_000_000_000, 4503599627370496);
      var x: Duration := 9007199254740993;
      && IsValidConfig(c) && ReferenceBound(c) == 9007199254740992.0
      && Correction(c, 1, 0, x, 0) == x
  {
    var c := Config(2.0, 4.0, 0, 0, 1_000_000_000, 4503599627370496);
    IntegersAreFloats(2);
    IntegersAreFloats(3);
    IntegersAreFloats(4);
    IntegersAreFloats(4503599627370496);
    IntegersAreFloats(9007199254740992);
    hide Round;
    assert Size(9007199254740993) == 9007199254740992.0 by { TieIsEven(); }
  }

  lemma TieIsEven()
    ensures Round(9007199254740993.0) == 9007199254740992.0
  {
    RoundDoubles(4503599627370496.5);
    assert Round(4503599627370496.5) == RoundEven(4503599627370496.5) as real;
  }

  // A configuration and offsets with a correction above the peer bound: the offsets are
  // within the bounds, in opposite directions, and their distance overflows.
  lemma CorrectionAboveBound()
    ensures var c := Config(128.0, 130.0, 0, 0, 1_000_000_000, 36028797018963968);
      var x: Duration, y: Duration := -4611686018427387904, 4611686018427387904;
      && IsValidConfig(c)
      && Abs(x) as real <= ReferenceBound(c) && Abs(y) as real <= PeerBound(c)
      && Abs(Correction(c, 1, 1, x, y)) as real > PeerBound(c)
  {
    var x: Duration, y: Duration := -4611686018427387904, 4611686018427387904;
    var c := Config(128.0, 130.0, 0, 0, 1_000_000_000, 36028797018963968);
    IntegersAreFloats(128);
    IntegersAreFloats(129);
    IntegersAreFloats(130);
    IntegersAreFloats(36028797018963968 / 8);
    IntegersAreFloats(4683743612465315840 / 1024);
    ScaledIsFloat(4503599627370496.0, 3);
    ScaledIsFloat(4503599627370496.0, 10);
    ScaledIsFloat(4573968371548160.0, 10);
    hide Round, MidOffset, EvenSum;
    assert Scaled(4503599627370496.0, 3) == 36028797018963968.0;
    assert IsValidConfig(c);
    assert ReferenceBound(c) == 4611686018427387904.0;
    assert PeerBound(c) == 4683743612465315840.0;
    MidOffsetOverflows(x, y);
  }

  /* ---- All rounds ---- */

  // What happens in a round: the answers of the reference clocks and of the peers in the
  // order of arrival, and after how many of them the time is up.
  datatype Answers = Answers(refs: seq<Measurement>, refStop: nat, peers: seq<Measurement>, peerStop: nat, now: int)

  datatype Offsets = Offsets(ref: Duration, peer: Duration)

  // The peers include the local clock, if there are any.
  function WithLocal(peers: nat): nat {
    if peers == 0 then 0 else peers + 1
  }

  ghost predicate RoundIs(c: Config, refs: nat, peers: nat, r: Answers, o: Offsets, corr: Duration)
    requires IsValidConfig(c)
  {
    && corr == Correction(c, refs, peers, o.ref, o.peer)
    && (if refs == 0 then o.ref == 0 else IsMeasured(o.ref, r.refs, r.refStop, r.now))
    && (if peers == 0 then o.peer == 0 else IsMeasured(o.peer, r.peers, r.peerStop, r.now))
  }

  // The combined offset of the clocks, which is a valid one.
  ghost predicate IsMeasured(offset: Duration, arrivals: seq<Measurement>, stop: nat, now: int) {
    |arrivals| > 0 && IsCombinedOffset(offset, arrivals, stop, now) && IsValidOffset(offset, arrivals, stop)
  }

  // Run, for as many rounds as given: the corrections applied, and the offsets that are
  // logged with them.
  method Run(c: Config, refs: nat, peers: nat, rounds: seq<Answers>)
    returns (corrs: seq<Duration>, offsets: seq<Offsets>)
    requires IsValidConfig(c)
    requires forall k :: 0 <= k < |rounds| ==>
               |rounds[k].refs| == refs && |rounds[k].peers| == if peers == 0 then 0 else peers + 1
    ensures |corrs| == |offsets| == |rounds|
    ensures forall k :: 0 <= k < |rounds| ==> RoundIs(c, refs, WithLocal(peers), rounds[k], offsets[k], corrs[k])
  {
    hide Correction, IsValidOffset, IsCombinedOffset, IsMidOf, Collected, IsValidConfig;
    var m := WithLocal(peers);
    var refOffsets := new Measurement[refs](_ => Measurement(0, 0, false));
    var peerOffsets := new Measurement[m](_ => Measurement(0, 0, false));
    corrs, offsets := [], [];
    var k := 0;
    while k < |rounds|
      invariant 0 <= k <= |rounds| && |corrs| == |offsets| == k
      invariant forall l :: 0 <= l < k ==> RoundIs(c, refs, m, rounds[l], offsets[l], corrs[l])
    {
      var r := rounds[k];
      var refOff: Duration, peerOff: Duration := 0, 0;
      if refs != 0 {
        var ref := MeasureOffset(refOffsets, r.refs, r.refStop, r.now);
        refOff := ref.offset;
      }
      if m != 0 {
        var peer := MeasureOffset(peerOffsets, r.peers, r.peerStop, r.now);
        peerOff := peer.offset;
      }
      var corr := CorrectionOf(c, refs, m, refOff, peerOff);
      corrs, offsets := corrs + [corr], offsets + [Offsets(refOff, peerOff)];
      k := k + 1;
    }
  }

  // If there are clocks, enough of them are correct, with offsets from a to b between lo and
  // hi.
  ghost predicate EnoughCorrect(clocks: nat, arrivals: seq<Measurement>, stop: nat, a: Duration, b: Duration,
                                lo: Duration, hi: Duration)
  {
    clocks != 0 ==> MostlyCorrect(arrivals, stop, a, b) && lo <= a && b <= hi
  }

  lemma CorrectInRange(arrivals: seq<Measurement>, stop: nat, a: int, b: int)
    requires MostlyCorrect(arrivals, stop, a, b)
    ensures a <= b
  {
    var i :| i in Correct(Received(arrivals, stop), a, b);
  }

  lemma ValidIsWithin(clocks: nat, offset: Duration, arrivals: seq<Measurement>, stop: nat, a: Duration, b: Duration,
                      lo: Duration, hi: Duration)
    requires if clocks == 0 then offset == 0 else IsValidOffset(offset, arrivals, stop)
    requires EnoughCorrect(clocks, arrivals, stop, a, b, lo, hi) && lo <= 0 <= hi && IsInt64(hi - lo)
    ensures lo <= offset <= hi
  {
    if clocks != 0 {
      CorrectInRange(arrivals, stop, a, b);
      assert a <= offset <= b;
    }
  }

  // If enough reference clocks are correct, with offsets from a to b, and enough peers, with
  // offsets from a' to b', the correction is in every range that contains zero and both of
  // these ranges.
  lemma CorrectionFollowsClocks(c: Config, refs: nat, peers: nat, r: Answers, o: Offsets, corr: Duration,
                                a: Duration, b: Duration, a': Duration, b': Duration, lo: Duration, hi: Duration)
    requires IsValidConfig(c) && lo <= 0 <= hi && IsInt64(hi - lo)
    ensures RoundIs(c, refs, peers, r, o, corr) ==>
            EnoughCorrect(refs, r.refs, r.refStop, a, b, lo, hi) ==>
            EnoughCorrect(peers, r.peers, r.peerStop, a', b', lo, hi) ==>
            lo <= corr <= hi
  {
    hide IsValidConfig, Clamp, MidOffset, ReferenceBound, PeerBound, IsValidOffset, EnoughCorrect, Overshoots;
    var enough := EnoughCorrect(refs, r.refs, r.refStop, a, b, lo, hi);
    if RoundIs(c, refs, peers, r, o, corr) && enough && EnoughCorrect(peers, r.peers, r.peerStop, a', b', lo, hi) {
      ValidIsWithin(refs, o.ref, r.refs, r.refStop, a, b, lo, hi);
      ValidIsWithin(peers, o.peer, r.peers, r.peerStop, a', b', lo, hi);
      var x, y := Clamp(o.ref, ReferenceBound(c)), Clamp(o.peer, PeerBound(c));
      ClampBounds(o.ref, ReferenceBound(c));
      ClampBounds(o.peer, PeerBound(c));
      SameSign(o.ref, x);
      SameSign(o.peer, y);
      MidOffsetIsBetween(x, y);
    }
  }

  lemma SameSign(d: int, x: int)
    requires x * d >= 0 && Abs(x) <= Abs(d)
    ensures d >= 0 ==> 0 <= x <= d
    ensures d <= 0 ==> d <= x <= 0
  {
  }
}
