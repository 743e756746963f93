/** Decimal quantisation with exact rationals.  The modes are Python's ROUND_HALF_UP,
    ROUND_HALF_EVEN and ROUND_DOWN, that is roundTiesToAway, roundTiesToEven and
    roundTowardZero of section 4.3 of IEEE 754-2008. */
module Rounding {

  datatype Mode = HalfUp | HalfEven | Down

  /** Rounds the absolute value, for which all three modes cut or add upwards. */
  function RoundMagnitude(v: real, mode: Mode): (n: nat)
    requires v >= 0.0
    ensures v - 1.0 < n as real <= v + 0.5
  {
    var below := v.Floor;
    var rest := v - below as real;
    match mode
    case Down => below
    case HalfUp => if rest >= 0.5 then below + 1 else below
    case HalfEven =>
      if rest > 0.5 || (rest == 0.5 && below % 2 == 1) then below + 1 else below
  }

  function RoundToInteger(v: real, mode: Mode): int {
    if v >= 0.0 then RoundMagnitude(v, mode) else 0 - RoundMagnitude(-v, mode)
  }

  function Power10(places: nat): (p: int)
    ensures p >= 1
  {
    if places == 0 then 1 else 10 * Power10(places - 1)
  }

  /** Rounds to a multiple of 1 / scale. */
  function RoundToUnit(v: real, mode: Mode, scale: real): real
    requires scale >= 1.0
  {
    RoundToInteger(v * scale, mode) as real / scale
  }

  /** `value.quantize(Decimal("1").scaleb(-places), rounding=mode)`. */
  function Quantize(v: real, mode: Mode, places: nat): real {
    RoundToUnit(v, mode, Power10(places) as real)
  }

  ghost predicate MultipleOfUnit(v: real, scale: real)
    requires scale >= 1.0
  {
    exists k: int :: v == Multiple(k, scale)
  }

  function Multiple(k: int, scale: real): real
    requires scale >= 1.0
  {
    k as real / scale
  }

  /** A value with at most `places` decimals. */
  ghost predicate OnGrid(v: real, places: nat) {
    MultipleOfUnit(v, Power10(places) as real)
  }

  lemma RoundMagnitudeMonotone(a: real, b: real, mode: Mode)
    requires 0.0 <= a <= b
    ensures RoundMagnitude(a, mode) <= RoundMagnitude(b, mode)
  {
    if a.Floor < b.Floor {
      assert RoundMagnitude(a, mode) <= a.Floor + 1;
    }
  }

  lemma RoundMonotone(a: real, b: real, mode: Mode)
    requires a <= b
    ensures RoundToInteger(a, mode) <= RoundToInteger(b, mode)
  {
    if 0.0 <= a {
      RoundMagnitudeMonotone(a, b, mode);
    } else if b < 0.0 {
      RoundMagnitudeMonotone(-b, -a, mode);
    }
  }

  lemma RoundFixesIntegers(k: int, mode: Mode)
    ensures RoundToInteger(k as real, mode) == k
  {
    if k >= 0 {
      assert (k as real).Floor == k;
    } else {
      assert ((-k) as real).Floor == -k;
      assert -(k as real) == (-k) as real;
    }
  }

  lemma RoundIsNear(v: real, mode: Mode)
    ensures var r := RoundToInteger(v, mode) as real;
            && (mode != Down ==> v - 0.5 <= r <= v + 0.5)
            && v - 1.0 < r < v + 1.0
            && (mode == Down && v >= 0.0 ==> r <= v)
            && (mode == Down && v <= 0.0 ==> v <= r)
  {
    if v >= 0.0 {
      assert v.Floor as real <= v < v.Floor as real + 1.0;
    } else {
      assert (-v).Floor as real <= -v < (-v).Floor as real + 1.0;
    }
  }

  // ---------------------------------------------------------------- scaling

  lemma MultiplyKeepsOrder(a: real, b: real, scale: real)
    requires a <= b && scale >= 0.0
    ensures a * scale <= b * scale
  {
    assert (b - a) * scale >= 0.0;
  }

  lemma DivideKeepsOrder(a: real, b: real, scale: real)
    requires a <= b && scale > 0.0
    ensures a / scale <= b / scale
  {
    assert (b - a) / scale >= 0.0;
    assert b / scale - a / scale == (b - a) / scale;
  }

  lemma DivideUndoesMultiply(v: real, scale: real)
    requires scale > 0.0
    ensures (v * scale) / scale == v && (v / scale) * scale == v
  {
  }

  lemma RoundToUnitMonotone(a: real, b: real, mode: Mode, scale: real)
    requires a <= b && scale >= 1.0
    ensures RoundToUnit(a, mode, scale) <= RoundToUnit(b, mode, scale)
  {
    MultiplyKeepsOrder(a, b, scale);
    RoundMonotone(a * scale, b * scale, mode);
    DivideKeepsOrder(RoundToInteger(a * scale, mode) as real, RoundToInteger(b * scale, mode) as real, scale);
  }

  lemma RoundToUnitFixes(k: int, mode: Mode, scale: real)
    requires scale >= 1.0
    ensures RoundToUnit(Multiple(k, scale), mode, scale) == Multiple(k, scale)
  {
    DivideUndoesMultiply(k as real, scale);
    assert Multiple(k, scale) * scale == k as real;
    RoundFixesIntegers(k, mode);
  }

  /** Bounds on a scaled value carry over to the value. */
  lemma Unscale(v: real, r: real, slack: real, scale: real)
    requires scale >= 1.0
    ensures r <= v * scale + slack ==> r / scale <= v + slack / scale
    ensures v * scale - slack <= r ==> v - slack / scale <= r / scale
  {
    DivideUndoesMultiply(v, scale);
    assert (v * scale + slack) / scale == v + slack / scale;
    assert (v * scale - slack) / scale == v - slack / scale;
    if r <= v * scale + slack {
      DivideKeepsOrder(r, v * scale + slack, scale);
    }
    if v * scale - slack <= r {
      DivideKeepsOrder(v * scale - slack, r, scale);
    }
  }

  lemma RoundToUnitIsNear(v: real, mode: Mode, scale: real)
    requires scale >= 1.0
    ensures var q := RoundToUnit(v, mode, scale);
            && (mode != Down ==> v - 0.5 / scale <= q <= v + 0.5 / scale)
            && v - 1.0 / scale <= q <= v + 1.0 / scale
            && (mode == Down && v >= 0.0 ==> q <= v)
            && (mode == Down && v <= 0.0 ==> v <= q)
  {
    var r := RoundToInteger(v * scale, mode) as real;
    RoundIsNear(v * scale, mode);
    Unscale(v, r, 1.0, scale);
    Unscale(v, r, 0.5, scale);
    Unscale(v, r, 0.0, scale);
    if v >= 0.0 {
      MultiplyKeepsOrder(0.0, v, scale);
    }
    if v <= 0.0 {
      MultiplyKeepsOrder(v, 0.0, scale);
    }
  }

  // ---------------------------------------------------------------- quantisation

  /** Quantisation keeps the order of values in all three modes. */
  lemma QuantizeMonotone(a: real, b: real, mode: Mode, places: nat)
    requires a <= b
    ensures Quantize(a, mode, places) <= Quantize(b, mode, places)
  {
    RoundToUnitMonotone(a, b, mode, Power10(places) as real);
  }

  lemma RoundToUnitFixesExactly(v: real, mode: Mode, scale: real)
    requires scale >= 1.0
    ensures RoundToUnit(v, mode, scale) == v <==> MultipleOfUnit(v, scale)
    ensures MultipleOfUnit(RoundToUnit(v, mode, scale), scale)
  {
    var n := RoundToInteger(v * scale, mode);
    assert RoundToUnit(v, mode, scale) == Multiple(n, scale);
    if MultipleOfUnit(v, scale) {
      var k: int :| v == Multiple(k, scale);
      RoundToUnitFixes(k, mode, scale);
    }
  }

  /** It keeps exactly the values that are on the grid, and always lands on the grid. */
  lemma QuantizeFixesExactlyTheGrid(v: real, mode: Mode, places: nat)
    ensures Quantize(v, mode, places) == v <==> OnGrid(v, places)
    ensures OnGrid(Quantize(v, mode, places), places)
  {
    RoundToUnitFixesExactly(v, mode, Power10(places) as real);
  }

  /** The half modes are at most half a unit away; ROUND_DOWN at most one unit and never
      further from zero. */
  lemma QuantizeIsNear(v: real, mode: Mode, places: nat)
    ensures var unit := 1.0 / Power10(places) as real;
            var q := Quantize(v, mode, places);
            && (mode != Down ==> v - 0.5 * unit <= q <= v + 0.5 * unit)
            && v - unit <= q <= v + unit
            && (mode == Down && v >= 0.0 ==> q <= v)
            && (mode == Down && v <= 0.0 ==> v <= q)
  {
    var scale := Power10(places) as real;
    RoundToUnitIsNear(v, mode, scale);
    assert 0.5 / scale == 0.5 * (1.0 / scale);
  }

  /** On a tie the three modes differ exactly as named. */
  lemma TiesAreBrokenByMode(k: nat)
    ensures RoundToInteger(k as real + 0.5, HalfUp) == k + 1
    ensures RoundToInteger(-(k as real) - 0.5, HalfUp) == 0 - (k + 1)
    ensures RoundToInteger(k as real + 0.5, HalfEven) % 2 == 0
    ensures RoundToInteger(k as real + 0.5, Down) == k
    ensures RoundToInteger(-(k as real) - 0.5, Down) == 0 - k
  {
    assert (k as real + 0.5).Floor == k;
    assert -(-(k as real) - 0.5) == k as real + 0.5;
  }
}
