/** The delay before the next tick: faster as the snake grows, capped in
    turbo mode, and stretched for vertical moves so that the head covers
    the same distance on screen per unit of time in both axes. */
module Speed {
  import opened Engine

  const REPAINT_TIMEOUT: nat := 280
  const HIGH_SPEED_TIMEOUT: nat := 50
  const DOUBLE_SPEED_AT_LENGTH: nat := 40

  /** Kotlin's Int.MAX_VALUE, at which Double.toInt() saturates. */
  const INT_MAX: nat := 0x7FFF_FFFF

  function Min(a: int, b: int): int {
    if a <= b then a else b
  }

  /** REPAINT_TIMEOUT / (1 + length / DOUBLE_SPEED_AT_LENGTH), truncated,
      with the quotient computed exactly. */
  function BaseTimeout(length: nat): nat {
    REPAINT_TIMEOUT * DOUBLE_SPEED_AT_LENGTH / (DOUBLE_SPEED_AT_LENGTH + length)
  }

  /** Turbo mode caps the timeout at HIGH_SPEED_TIMEOUT. */
  function TurboTimeout(timeout: nat, highSpeed: bool): (r: nat)
    ensures r <= timeout
    ensures highSpeed ==> r <= HIGH_SPEED_TIMEOUT
    ensures r < timeout ==> highSpeed && r == HIGH_SPEED_TIMEOUT
    ensures !highSpeed ==> r == timeout
  {
    if highSpeed && timeout > HIGH_SPEED_TIMEOUT then HIGH_SPEED_TIMEOUT else timeout
  }

  /** The timeout divided by the isotropy factor, which is 1 for a
      horizontal move and columnWidth / lineHeight for a vertical one, and
      truncated to an Int the way the double arithmetic does it: a zero
      line height makes the factor infinite (result 0), a zero column width
      makes it 0 (result +infinity, saturated to INT_MAX, or NaN, read as 0,
      when the timeout is also 0), and both zero make it NaN (result 0). */
  function IsotropicTimeout(timeout: nat, heading: Direction, columnWidth: nat, lineHeight: nat): nat {
    if !IsVertical(heading) then timeout
    else if columnWidth > 0 && lineHeight > 0 then Min(timeout * lineHeight / columnWidth, INT_MAX)
    else if columnWidth > 0 then 0
    else if lineHeight > 0 && timeout > 0 then INT_MAX
    else 0
  }

  /** The delay before the next tick for a snake of `length` cells heading
      along `heading`. */
  function RepaintTimeout(length: nat, highSpeed: bool, heading: Direction, columnWidth: nat, lineHeight: nat): nat {
    IsotropicTimeout(TurboTimeout(BaseTimeout(length), highSpeed), heading, columnWidth, lineHeight)
  }

  // ---- Division facts ----

  lemma DivIsFloor(x: nat, d: nat)
    requires d > 0
    ensures (x / d) * d <= x < (x / d + 1) * d
  {
  }

  lemma MulCancelLess(u: int, v: int, a: int)
    requires a > 0 && u * a < v * a
    ensures u < v
  {
  }

  lemma RealCancel(u: real, v: real, d: real)
    requires d > 0.0 && u * d <= v * d
    ensures u <= v
  {
  }

  lemma RealCancelLess(u: real, v: real, d: real)
    requires d > 0.0 && u * d < v * d
    ensures u < v
  {
  }

  lemma MulMonotone(q: nat, a: nat, b: nat)
    requires a <= b
    ensures q * a <= q * b
  {
  }

  lemma DivLargerDenominator(x: nat, a: nat, b: nat)
    requires 0 < a <= b
    ensures x / b <= x / a
  {
    var q := x / b;
    var p := x / a;
    DivIsFloor(x, b);
    DivIsFloor(x, a);
    MulMonotone(q, a, b);
    assert q * a < (p + 1) * a;
    MulCancelLess(q, p + 1, a);
  }

  lemma DivLargerNumerator(x: nat, y: nat, d: nat)
    requires x <= y && d > 0
    ensures x / d <= y / d
  {
    DivIsFloor(x, d);
    DivIsFloor(y, d);
    MulCancelLess(x / d, y / d + 1, d);
  }

  /** For positive real d and integer q, q is the truncated quotient x / d
      when q * d <= x < (q + 1) * d. */
  lemma RealBoundsFromProducts(q: int, x: real, d: real)
    requires d > 0.0
    requires q as real * d <= x < (q + 1) as real * d
    ensures q as real <= x / d < (q + 1) as real
  {
    assert x / d * d == x;
    RealCancel(q as real, x / d, d);
    RealCancelLess(x / d, (q + 1) as real, d);
  }

  // ---- Properties of the delay ----

  /** The integer formula is the truncation of the real one,
      REPAINT_TIMEOUT / (1 + length / DOUBLE_SPEED_AT_LENGTH). */
  lemma BaseTimeoutIsTruncatedQuotient(length: nat)
    ensures var exact := REPAINT_TIMEOUT as real / (1.0 + length as real / DOUBLE_SPEED_AT_LENGTH as real);
      BaseTimeout(length) as real <= exact < (BaseTimeout(length) + 1) as real
  {
    var d := DOUBLE_SPEED_AT_LENGTH + length;
    var q := BaseTimeout(length);
    DivIsFloor(REPAINT_TIMEOUT * DOUBLE_SPEED_AT_LENGTH, d);
    var speedup := 1.0 + length as real / DOUBLE_SPEED_AT_LENGTH as real;
    assert speedup == d as real / 40.0;
    assert (q * d) as real == q as real * d as real;
    assert ((q + 1) * d) as real == (q + 1) as real * d as real;
    RealBoundsFromProducts(q, 11200.0, d as real);
    assert REPAINT_TIMEOUT as real / speedup == 11200.0 / d as real;
  }

  /** The timeout starts at REPAINT_TIMEOUT and halves at length
      DOUBLE_SPEED_AT_LENGTH. */
  lemma BaseTimeoutAnchors(length: nat)
    ensures BaseTimeout(0) == REPAINT_TIMEOUT
    ensures BaseTimeout(DOUBLE_SPEED_AT_LENGTH) == REPAINT_TIMEOUT / 2
    ensures BaseTimeout(length) <= REPAINT_TIMEOUT
  {
    DivLargerDenominator(REPAINT_TIMEOUT * DOUBLE_SPEED_AT_LENGTH, DOUBLE_SPEED_AT_LENGTH, DOUBLE_SPEED_AT_LENGTH + length);
  }

  /** A longer snake never waits longer. */
  lemma BaseTimeoutNonIncreasing(shorter: nat, longer: nat)
    requires shorter <= longer
    ensures BaseTimeout(longer) <= BaseTimeout(shorter)
  {
    DivLargerDenominator(REPAINT_TIMEOUT * DOUBLE_SPEED_AT_LENGTH,
                         DOUBLE_SPEED_AT_LENGTH + shorter, DOUBLE_SPEED_AT_LENGTH + longer);
  }

  /** Truncation makes the decrease non-strict: lengths 1000 and 1001 get
      the same timeout. */
  lemma BaseTimeoutNotStrictlyDecreasing()
    ensures BaseTimeout(1000) == BaseTimeout(1001) == 10
  {
  }

  /** In turbo mode no delay of a horizontal move exceeds HIGH_SPEED_TIMEOUT,
      and turbo never slows the snake down. */
  lemma TurboCapsDelay(length: nat, heading: Direction, columnWidth: nat, lineHeight: nat)
    ensures !IsVertical(heading) ==> RepaintTimeout(length, true, heading, columnWidth, lineHeight) <= HIGH_SPEED_TIMEOUT
    ensures TurboTimeout(BaseTimeout(length), true) <= TurboTimeout(BaseTimeout(length), false)
  {
  }

  /** A horizontal move uses the (possibly capped) timeout unchanged. */
  lemma HorizontalDelayUnscaled(length: nat, highSpeed: bool, heading: Direction, columnWidth: nat, lineHeight: nat)
    requires !IsVertical(heading)
    ensures RepaintTimeout(length, highSpeed, heading, columnWidth, lineHeight) == TurboTimeout(BaseTimeout(length), highSpeed)
  {
  }

  /** A vertical move waits the horizontal delay times lineHeight /
      columnWidth, truncated, unless that exceeds INT_MAX. */
  lemma VerticalDelayScaledByAspect(length: nat, highSpeed: bool, heading: Direction, columnWidth: nat, lineHeight: nat)
    requires IsVertical(heading) && columnWidth > 0 && lineHeight > 0
    ensures var horizontal := RepaintTimeout(length, highSpeed, Right, columnWidth, lineHeight);
      var vertical := RepaintTimeout(length, highSpeed, heading, columnWidth, lineHeight);
      var exact := horizontal as real * (lineHeight as real / columnWidth as real);
      vertical <= INT_MAX &&
      (exact < INT_MAX as real ==> vertical as real <= exact < (vertical + 1) as real)
  {
    var t := TurboTimeout(BaseTimeout(length), highSpeed);
    assert RepaintTimeout(length, highSpeed, Right, columnWidth, lineHeight) == t;
    var q := t * lineHeight / columnWidth;
    ScaledQuotient(t, lineHeight, columnWidth);
    if q <= INT_MAX {
      assert RepaintTimeout(length, highSpeed, heading, columnWidth, lineHeight) == q;
    } else {
      assert (INT_MAX as real) < q as real;
    }
  }

  /** t * h / w in integers truncates t * (h / w) in reals. */
  lemma ScaledQuotient(t: nat, h: nat, w: nat)
    requires w > 0
    ensures var q := t * h / w;
      q as real <= t as real * (h as real / w as real) < (q + 1) as real
  {
    var q := t * h / w;
    DivIsFloor(t * h, w);
    assert (q * w) as real == q as real * w as real;
    assert ((q + 1) * w) as real == (q + 1) as real * w as real;
    assert (t * h) as real == t as real * h as real;
    RealBoundsFromProducts(q, t as real * h as real, w as real);
    assert t as real * (h as real / w as real) == t as real * h as real / w as real;
  }

  /** Scaling for the direction never reverses the order of two timeouts. */
  lemma IsotropicTimeoutMonotone(a: nat, b: nat, heading: Direction, columnWidth: nat, lineHeight: nat)
    requires a <= b
    ensures IsotropicTimeout(a, heading, columnWidth, lineHeight) <= IsotropicTimeout(b, heading, columnWidth, lineHeight)
  {
    if IsVertical(heading) && columnWidth > 0 && lineHeight > 0 {
      MulMonotone(lineHeight, a, b);
      DivLargerNumerator(lineHeight * a, lineHeight * b, columnWidth);
      assert a * lineHeight == lineHeight * a && b * lineHeight == lineHeight * b;
    }
  }

  /** With everything else fixed, the delay never grows with the length. */
  lemma RepaintTimeoutNonIncreasing(shorter: nat, longer: nat, highSpeed: bool, heading: Direction,
                                    columnWidth: nat, lineHeight: nat)
    requires shorter <= longer
    ensures RepaintTimeout(longer, highSpeed, heading, columnWidth, lineHeight)
         <= RepaintTimeout(shorter, highSpeed, heading, columnWidth, lineHeight)
  {
    BaseTimeoutNonIncreasing(shorter, longer);
    IsotropicTimeoutMonotone(TurboTimeout(BaseTimeout(longer), highSpeed), TurboTimeout(BaseTimeout(shorter), highSpeed),
                             heading, columnWidth, lineHeight);
  }
}
