/** float64 arithmetic on numbers from 1 on, each operation rounding its exact result to the
    nearest value with 53 significant bits, ties to the even one. Exponents are unbounded. */
module Float64 {

  const TWO_52: real := 4503599627370496.0
  const TWO_53: real := 9007199254740992.0

  // The nearest integer, the even one of two.
  function RoundEven(x: real): (r: int)
    ensures -0.5 <= r as real - x <= 0.5
    ensures r as real - x == 0.5 || r as real - x == -0.5 ==> r % 2 == 0
  {
    var q := x.Floor;
    var rest := x - q as real;
    if rest < 0.5 || (rest == 0.5 && q % 2 == 0) then q else q + 1
  }

  // Results of operations that are covered.
  predicate InRange(x: real) {
    x == 0.0 || x >= 1.0
  }

  // From 2^52 to 2^53 the values with 53 bits are the integers. Other numbers are scaled.
  function Round(x: real): (r: real)
    requires InRange(x)
    ensures InRange(r) && (r == 0.0 <==> x == 0.0)
    ensures x < TWO_53 ==> x.Floor as real <= r
    ensures x < TWO_52 ==> r <= TWO_52
    ensures TWO_52 <= x < TWO_53 ==> TWO_52 <= r <= TWO_53
    ensures x >= TWO_53 ==> r >= TWO_53
    decreases x >= TWO_53, if x >= TWO_53 then x.Floor else TWO_53.Floor - x.Floor
  {
    if x == 0.0 then 0.0
    else if x >= TWO_53 then 2.0 * Round(x / 2.0)
    else if x < TWO_52 then
      RangeDoubles(x);
      Round(2.0 * x) / 2.0
    else RoundEven(x) as real
  }

  lemma RangeDoubles(x: real)
    requires 1.0 <= x < TWO_52
    ensures x.Floor < 2 * x.Floor <= (2.0 * x).Floor <= TWO_53.Floor
  {
  }

  // The values of the type, from 1 on.
  predicate IsFloat64(x: real) {
    x >= 1.0 && Round(x) == x
  }

  type Float = x: real | IsFloat64(x) witness (IntegersAreFloats(1); 1.0)

  lemma FloatsAreLarge(x: Float)
    ensures x >= 1.0 && Round(x) == x
  {
    hide Round;
    assert IsFloat64(x);
  }

  lemma {:induction false} IntegersAreFloats(n: nat)
    requires n as real <= TWO_53
    ensures Round(n as real) == n as real
    decreases n as real == TWO_53, TWO_53.Floor - n
  {
    if n as real == TWO_53 {
      IntegersAreFloats(n / 2);
    } else if 0 < n && n as real < TWO_52 {
      RangeDoubles(n as real);
      IntegersAreFloats(2 * n);
    }
  }

  lemma RoundDoubles(x: real)
    requires x >= 1.0
    ensures Round(2.0 * x) == 2.0 * Round(x)
  {
    if x < TWO_52 {
      RangeDoubles(x);
    }
  }

  lemma FloatDoubles(x: real)
    requires x >= 1.0
    ensures IsFloat64(2.0 * x) <==> IsFloat64(x)
  {
    RoundDoubles(x);
    hide Round;
  }

  // x * 2^k
  function Scaled(x: real, k: nat): (r: real)
    ensures x > 0.0 ==> r >= x
  {
    if k == 0 then x else 2.0 * Scaled(x, k - 1)
  }

  lemma {:induction false} ScaledIsFloat(x: real, k: nat)
    requires IsFloat64(x)
    ensures IsFloat64(Scaled(x, k))
  {
    assert x >= 1.0;
    hide Round, IsFloat64;
    if k != 0 {
      ScaledIsFloat(x, k - 1);
      FloatDoubles(Scaled(x, k - 1));
    }
  }

  lemma HalfIsFloat(x: real)
    requires IsFloat64(x) && x >= 2.0
    ensures IsFloat64(x / 2.0)
  {
    RoundDoubles(x / 2.0);
    hide Round;
  }

  // A number of at most 53 bits, scaled up or down.
  ghost predicate HasBits(x: real, n: nat, k: nat) {
    n as real <= TWO_53 && (x == Scaled(n as real, k) || Scaled(x, k) == n as real)
  }

  lemma {:induction false} ScaledDoubles(x: real, k: nat)
    ensures Scaled(2.0 * x, k) == 2.0 * Scaled(x, k)
  {
    if k != 0 {
      ScaledDoubles(x, k - 1);
    }
  }

  // The values of the type are exactly these numbers.
  lemma {:induction false} FloatHasBits(x: real) returns (n: nat, k: nat)
    requires IsFloat64(x)
    ensures HasBits(x, n, k)
    decreases x >= TWO_53, if x >= TWO_53 then x.Floor else TWO_53.Floor - x.Floor
  {
    FloatsAreLarge(x);
    hide Round, IsFloat64;
    if x >= TWO_53 {
      HalfIsFloat(x);
      n, k := FloatHasBits(x / 2.0);
      ScaledDoubles(x / 2.0, k);
      k := if k > 0 && x / 2.0 != Scaled(n as real, k) then k - 1 else k + 1;
    } else if x < TWO_52 {
      FloatDoubles(x);
      RangeDoubles(x);
      n, k := FloatHasBits(2.0 * x);
      ScaledDoubles(x, k);
      k := if k > 0 && 2.0 * x == Scaled(n as real, k) then k - 1 else k + 1;
    } else {
      IsInteger(x);
      n, k := x.Floor, 0;
    }
  }

  lemma IsInteger(x: real)
    requires TWO_52 <= x < TWO_53 && IsFloat64(x)
    ensures x == x.Floor as real
  {
  }

  lemma {:induction false} ScaledZero(k: nat)
    ensures Scaled(0.0, k) == 0.0
  {
    if k != 0 {
      ScaledZero(k - 1);
    }
  }

  lemma IntegerIsFloat(n: nat)
    requires n as real <= TWO_53
    ensures n > 0 ==> IsFloat64(n as real)
  {
    hide Round;
    IntegersAreFloats(n);
  }

  lemma {:induction false} BitsAreFloat(x: real, n: nat, k: nat)
    requires x >= 1.0 && HasBits(x, n, k)
    ensures IsFloat64(x)
    decreases k
  {
    hide Round, IsFloat64;
    ScaledZero(k);
    IntegerIsFloat(n);
    if x == Scaled(n as real, k) {
      ScaledIsFloat(n as real, k);
    } else if k > 0 {
      ScaledDoubles(x, k - 1);
      BitsAreFloat(2.0 * x, n, k - 1);
      FloatDoubles(x);
    }
  }

  lemma RoundEvenIsMonotone(x: real, y: real)
    requires x <= y
    ensures RoundEven(x) <= RoundEven(y)
  {
  }

  lemma {:induction false} RoundIsMonotone(x: real, y: real)
    requires InRange(x) && InRange(y) && x <= y
    ensures Round(x) <= Round(y)
    decreases x >= TWO_53, if x >= TWO_53 then x.Floor else TWO_53.Floor - x.Floor
  {
    hide RoundEven;
    if x >= TWO_53 {
      RoundIsMonotone(x / 2.0, y / 2.0);
    } else if 0.0 < x && y < TWO_52 {
      RangeDoubles(x);
      RoundIsMonotone(2.0 * x, 2.0 * y);
    } else if TWO_52 <= x && y < TWO_53 {
      RoundEvenIsMonotone(x, y);
    } else {
      assert Round(x) <= Round(y) by { hide Round; }
    }
  }

  lemma RoundedIsInteger(x: real)
    requires TWO_52 <= x < TWO_53
    ensures IsFloat64(Round(x))
  {
    var n := RoundEven(x);
    hide RoundEven;
    IntegersAreFloats(n);
  }

  // A rounded number is a value of the type,
  lemma {:induction false} RoundedIsFloat(x: real)
    requires x >= 1.0
    ensures IsFloat64(Round(x))
    decreases x >= TWO_53, if x >= TWO_53 then x.Floor else TWO_53.Floor - x.Floor
  {
    hide Round, IsFloat64;
    if x >= TWO_53 {
      RoundDoubles(x / 2.0);
      RoundedIsFloat(x / 2.0);
      FloatDoubles(Round(x / 2.0));
    } else if x < TWO_52 {
      RangeDoubles(x);
      RoundDoubles(x);
      RoundedIsFloat(2.0 * x);
      FloatDoubles(Round(x));
    } else {
      RoundedIsInteger(x);
    }
  }

  function Distance(x: real, y: real): real {
    if x < y then y - x else x - y
  }

  lemma RoundEvenIsNearest(x: real, n: int)
    ensures Distance(RoundEven(x) as real, x) <= Distance(n as real, x)
  {
    var q := x.Floor;
    if n <= q {
      assert n as real <= q as real;
    } else {
      assert n as real >= (q + 1) as real;
    }
  }

  lemma RoundEvenIsNearestFloat(x: real, y: real)
    requires TWO_52 <= x < TWO_53 && IsFloat64(y)
    ensures Distance(Round(x), x) <= Distance(y, x)
  {
    var z := if y < TWO_52 then TWO_52 else if y < TWO_53 then y else TWO_53;
    assert Distance(z, x) <= Distance(y, x);
    assert z == z.Floor as real;
    hide RoundEven, Distance;
    RoundEvenIsNearest(x, z.Floor);
  }

  lemma NearestDoubles(x: real, y: real)
    requires x >= 1.0
    ensures Distance(Round(2.0 * x), 2.0 * x) <= Distance(2.0 * y, 2.0 * x)
       <==> Distance(Round(x), x) <= Distance(y, x)
  {
    RoundDoubles(x);
    hide Round;
  }

  lemma NextIsNearer(x: real, y: real)
    ensures x >= TWO_53 > y ==> Distance(TWO_53, x) <= Distance(y, x)
    ensures x < TWO_52 <= y ==> Distance(TWO_52, x) <= Distance(y, x)
    ensures IsFloat64(TWO_52) && IsFloat64(TWO_53)
  {
    IntegersAreFloats(TWO_52.Floor);
    IntegersAreFloats(TWO_53.Floor);
    hide Round;
  }

  lemma {:induction false} NearestAbove(x: real, y: real)
    requires x >= TWO_52 && IsFloat64(y) && y >= 1.0
    ensures Distance(Round(x), x) <= Distance(y, x)
    decreases x.Floor
  {
    hide Round, IsFloat64, Distance;
    if x >= TWO_53 {
      var z := if y >= TWO_53 then y else TWO_53;
      NextIsNearer(x, y);
      HalfIsFloat(z);
      NearestAbove(x / 2.0, z / 2.0);
      NearestDoubles(x / 2.0, z / 2.0);
    } else {
      RoundEvenIsNearestFloat(x, y);
    }
  }

  lemma {:induction false} NearestBelow(x: real, y: real)
    requires 1.0 <= x < TWO_53 && IsFloat64(y) && y >= 1.0
    ensures Distance(Round(x), x) <= Distance(y, x)
    decreases TWO_53.Floor - x.Floor
  {
    hide Round, IsFloat64, Distance;
    if x < TWO_52 {
      var z := if y < TWO_52 then y else TWO_52;
      NextIsNearer(x, y);
      RangeDoubles(x);
      FloatDoubles(z);
      NearestBelow(2.0 * x, 2.0 * z);
      NearestDoubles(x, z);
    } else {
      RoundEvenIsNearestFloat(x, y);
    }
  }

  // and no value is nearer.
  lemma RoundIsNearest(x: real, y: real)
    requires x >= 1.0 && IsFloat64(y)
    ensures Distance(Round(x), x) <= Distance(y, x)
  {
    if x >= TWO_52 {
      NearestAbove(x, y);
    } else {
      NearestBelow(x, y);
    }
    hide Round, Distance;
  }

  // The error is at most half a unit of the last of 53 bits.
  lemma {:induction false} RoundError(x: real)
    requires InRange(x)
    ensures Distance(Round(x), x) * TWO_53 <= x
    decreases x >= TWO_53, if x >= TWO_53 then x.Floor else TWO_53.Floor - x.Floor
  {
    if x >= TWO_53 {
      RoundError(x / 2.0);
    } else if 0.0 < x < TWO_52 {
      RangeDoubles(x);
      RoundError(2.0 * x);
    }
  }

  lemma {:induction false} ErrorBelow(x: real, k: nat)
    requires 1.0 <= x < Scaled(TWO_53, k)
    ensures 2.0 * Distance(Round(x), x) <= Scaled(1.0, k)
  {
    if x >= TWO_53 {
      ErrorBelow(x / 2.0, k - 1);
    } else {
      RoundError(x);
    }
  }
}
